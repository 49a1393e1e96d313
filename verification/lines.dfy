/** Line assembly for data from the game server (`MUDProtocol`, muddrop.py
    lines 980-995): carriage returns are dropped, the data is appended to a
    buffer, and every complete line (ended by "\n") is taken off the front
    of the buffer; what follows the last "\n" stays buffered for the next
    chunk. */
module Lines {

  /** `str.replace("\r", "")`. */
  function DropCR(s: string): (r: string)
    ensures '\r' !in r
    ensures |r| <= |s|
    ensures forall c :: c != '\r' ==> (c in r <==> c in s)
    decreases |s|
  {
    if s == [] then []
    else (if s[0] == '\r' then [] else [s[0]]) + DropCR(s[1..])
  }

  /** Text without a carriage return is left alone. */
  lemma {:induction false} DropCRNoCR(s: string)
    requires '\r' !in s
    ensures DropCR(s) == s
    decreases |s|
  {
    if s != [] {
      assert s[0] != '\r';
      DropCRNoCR(s[1..]);
    }
  }

  /** Dropping distributes over concatenation. */
  lemma {:induction false} DropCRAppend(a: string, b: string)
    ensures DropCR(a + b) == DropCR(a) + DropCR(b)
    decreases |a|
  {
    if a == [] {
      assert a + b == b;
    } else {
      assert (a + b)[0] == a[0];
      assert (a + b)[1..] == a[1..] + b;
      DropCRAppend(a[1..], b);
      var head := if a[0] == '\r' then [] else [a[0]];
      assert head + (DropCR(a[1..]) + DropCR(b)) == head + DropCR(a[1..]) + DropCR(b);
    }
  }

  /** The position of the first "\n", or the length when there is none. */
  function LineEnd(s: string): (k: nat)
    ensures k <= |s|
    ensures forall j :: 0 <= j < k ==> s[j] != '\n'
    ensures k < |s| ==> s[k] == '\n'
    decreases |s|
  {
    if s == [] || s[0] == '\n' then 0
    else
      var k := 1 + LineEnd(s[1..]);
      assert forall j :: 1 <= j < k ==> s[j] == s[1..][j - 1];
      k
  }

  /** Lines each followed by "\n", as they stood in the stream. */
  function Join(lines: seq<string>): string
    decreases |lines|
  {
    if lines == [] then [] else lines[0] + "\n" + Join(lines[1..])
  }

  /** Complete lines taken off a buffer, and what is left. */
  datatype Assembly = Assembly(lines: seq<string>, rest: string)

  /** The `split(delimiter, 1)` loop: take lines off the front until no
      "\n" is left. Nothing is lost or added, no line holds a "\n", and the
      remainder holds none. */
  function SplitLines(buffer: string): (r: Assembly)
    ensures Join(r.lines) + r.rest == buffer
    ensures '\n' !in r.rest
    ensures forall i :: 0 <= i < |r.lines| ==> '\n' !in r.lines[i]
    decreases |buffer|
  {
    var k := LineEnd(buffer);
    if k == |buffer| then
      Assembly([], buffer)
    else
      var next := SplitLines(buffer[k + 1..]);
      CutAtLineEnd(buffer);
      JoinCons(buffer[..k], next.lines, next.rest);
      Assembly([buffer[..k]] + next.lines, next.rest)
  }

  /** A buffer with a "\n" is its first line, the "\n" and the rest. */
  lemma CutAtLineEnd(buffer: string)
    requires LineEnd(buffer) < |buffer|
    ensures var k := LineEnd(buffer);
            buffer == buffer[..k] + "\n" + buffer[k + 1..] && '\n' !in buffer[..k]
  {
    var k := LineEnd(buffer);
    CutAt(buffer, k);
    NoNewlineBefore(buffer, k);
  }

  lemma CutAt(s: string, k: nat)
    requires k < |s| && s[k] == '\n'
    ensures s == s[..k] + "\n" + s[k + 1..]
  {
    assert s == s[..k] + [s[k]] + s[k + 1..];
  }

  lemma NoNewlineBefore(s: string, k: nat)
    requires k <= |s|
    requires forall j :: 0 <= j < k ==> s[j] != '\n'
    ensures '\n' !in s[..k]
  {
    forall c | c in s[..k]
      ensures c != '\n'
    {
      var j :| 0 <= j < k && s[..k][j] == c;
    }
  }

  lemma JoinCons(l: string, ls: seq<string>, rest: string)
    ensures Join([l] + ls) + rest == l + "\n" + (Join(ls) + rest)
    ensures forall i :: 1 <= i < |[l] + ls| ==> ([l] + ls)[i] == ls[i - 1]
  {
    assert ([l] + ls)[1..] == ls;
  }

  /** The split is the only one: lines free of "\n" whose join, followed by
      a remainder free of "\n", spells the buffer, are the lines the split
      finds. */
  lemma SplitLinesUnique(buffer: string, lines: seq<string>, rest: string)
    requires Join(lines) + rest == buffer
    requires '\n' !in rest
    requires forall i :: 0 <= i < |lines| ==> '\n' !in lines[i]
    ensures SplitLines(buffer) == Assembly(lines, rest)
  {
    SplitJoined(lines, rest);
  }

  /** Splitting lines free of "\n", each followed by one, and then a
      remainder free of "\n", gives back exactly those lines and that
      remainder. */
  lemma {:induction false} SplitJoined(lines: seq<string>, rest: string)
    requires '\n' !in rest
    requires forall i :: 0 <= i < |lines| ==> '\n' !in lines[i]
    ensures SplitLines(Join(lines) + rest) == Assembly(lines, rest)
    decreases |lines|
  {
    if lines == [] {
      assert Join(lines) + rest == rest;
      LineEndNone(rest);
    } else {
      var l, tail := lines[0], Join(lines[1..]) + rest;
      var buffer := Join(lines) + rest;
      assert buffer == l + "\n" + tail;
      assert LineEnd(buffer) == |l| && buffer[..|l|] == l && buffer[|l| + 1..] == tail by {
        LineEndOfLine(l, tail);
      }
      SplitFirstLine(buffer, l, tail);
      NoNewlineInLater(lines);
      SplitJoined(lines[1..], rest);
      HeadAndTail(lines);
    }
  }

  lemma NoNewlineInLater(lines: seq<string>)
    requires lines != []
    requires forall i :: 0 <= i < |lines| ==> '\n' !in lines[i]
    ensures forall i :: 0 <= i < |lines[1..]| ==> '\n' !in lines[1..][i]
  {
    assert forall i :: 0 <= i < |lines[1..]| ==> lines[1..][i] == lines[i + 1];
  }

  lemma HeadAndTail<T>(xs: seq<T>)
    requires xs != []
    ensures [xs[0]] + xs[1..] == xs
  {
  }

  lemma SplitFirstLine(buffer: string, l: string, tail: string)
    requires LineEnd(buffer) == |l| < |buffer|
    requires buffer[..|l|] == l && buffer[|l| + 1..] == tail
    ensures SplitLines(buffer) == Assembly([l] + SplitLines(tail).lines, SplitLines(tail).rest)
  {
  }

  /** Text without a "\n" ends where it ends. */
  lemma LineEndNone(s: string)
    requires '\n' !in s
    ensures LineEnd(s) == |s|
  {
  }

  /** A line without "\n", then "\n": the first line end is at its end. */
  lemma LineEndOfLine(l: string, tail: string)
    requires '\n' !in l
    ensures LineEnd(l + "\n" + tail) == |l|
  {
    var s := l + "\n" + tail;
    assert s[|l|] == '\n';
    assert forall j :: 0 <= j < |l| ==> s[j] == l[j];
  }

  /** `rawDataReceived` on the line assembly: the lines handed on, in
      order, and the new buffer. The raw chunk is also mirrored to the local
      client; that is the caller's part. */
  function Receive(buffer: string, data: string): (r: Assembly)
    ensures Join(r.lines) + r.rest == buffer + DropCR(data)
    ensures '\n' !in r.rest
    ensures forall i :: 0 <= i < |r.lines| ==> '\n' !in r.lines[i]
    ensures '\r' !in buffer ==> forall i :: 0 <= i < |r.lines| ==> '\r' !in r.lines[i]
  {
    var r := SplitLines(buffer + DropCR(data));
    JoinMembers(r.lines, r.rest);
    NoCRInLines(r.lines, r.rest, buffer + DropCR(data));
    r
  }

  /** Line 995: every line handed on has its "\r" bytes removed once more. */
  function DropCREach(lines: seq<string>): (r: seq<string>)
    ensures |r| == |lines|
    ensures forall i :: 0 <= i < |lines| ==> r[i] == DropCR(lines[i])
  {
    seq(|lines|, i requires 0 <= i < |lines| => DropCR(lines[i]))
  }

  lemma DropCREachAppend(a: seq<string>, b: seq<string>)
    ensures DropCREach(a + b) == DropCREach(a) + DropCREach(b)
  {
    assert forall i :: 0 <= i < |a| ==> (a + b)[i] == a[i];
    assert forall i :: |a| <= i < |a| + |b| ==> (a + b)[i] == b[i - |a|];
  }

  /** Lines without a carriage return are handed on as they are. */
  lemma DropCREachNoCR(lines: seq<string>)
    requires forall i :: 0 <= i < |lines| ==> '\r' !in lines[i]
    ensures DropCREach(lines) == lines
  {
    forall i | 0 <= i < |lines|
      ensures DropCR(lines[i]) == lines[i]
    {
      DropCRNoCR(lines[i]);
    }
  }

  /** Lines cut from text without a carriage return have none. */
  lemma NoCRInLines(lines: seq<string>, rest: string, s: string)
    requires Join(lines) + rest == s
    requires forall i, c :: 0 <= i < |lines| && c in lines[i] ==> c in Join(lines) + rest
    ensures '\r' !in s ==> forall i :: 0 <= i < |lines| ==> '\r' !in lines[i]
  {
  }

  /** Every character of every line occurs in the joined text. */
  lemma {:induction false} JoinMembers(lines: seq<string>, rest: string)
    ensures forall i, c :: 0 <= i < |lines| && c in lines[i] ==> c in Join(lines) + rest
    decreases |lines|
  {
    if lines != [] {
      JoinMembers(lines[1..], rest);
      assert Join(lines) + rest == lines[0] + ("\n" + (Join(lines[1..]) + rest));
      forall i, c | 0 <= i < |lines| && c in lines[i]
        ensures c in Join(lines) + rest
      {
        if i > 0 {
          assert lines[i] == lines[1..][i - 1];
        }
      }
    }
  }

  /** Receiving two chunks one after the other hands on the same lines as
      receiving them at once: line assembly does not depend on how the
      stream was cut into chunks. */
  lemma ReceiveChunks(buffer: string, a: string, b: string)
    ensures var first := Receive(buffer, a);
            var second := Receive(first.rest, b);
            var whole := Receive(buffer, a + b);
            first.lines + second.lines == whole.lines && second.rest == whole.rest
  {
    var first := Receive(buffer, a);
    var second := Receive(first.rest, b);
    DropCRAppend(a, b);
    Regroup(buffer, DropCR(a), DropCR(b));
    SplitTwice(buffer + DropCR(a), DropCR(b), first.lines, first.rest, second.lines, second.rest);
  }

  /** Lines `l1` and remainder `r1` split from `s`, then `l2` and `r2` from
      `r1 + z`: together they are the split of `s + z`. */
  lemma SplitTwice(s: string, z: string, l1: seq<string>, r1: string, l2: seq<string>, r2: string)
    requires Join(l1) + r1 == s
    requires forall i :: 0 <= i < |l1| ==> '\n' !in l1[i]
    requires Join(l2) + r2 == r1 + z && '\n' !in r2
    requires forall i :: 0 <= i < |l2| ==> '\n' !in l2[i]
    ensures SplitLines(s + z) == Assembly(l1 + l2, r2)
  {
    JoinAppend(l1, l2);
    JoinTwice(l1, r1, l2, r2, s, z);
    NoNewlineConcat(l1, l2);
    SplitLinesUnique(s + z, l1 + l2, r2);
  }

  lemma Regroup<T>(x: seq<T>, y: seq<T>, z: seq<T>)
    ensures x + (y + z) == (x + y) + z
  {
  }

  lemma NoNewlineConcat(l1: seq<string>, l2: seq<string>)
    requires forall i :: 0 <= i < |l1| ==> '\n' !in l1[i]
    requires forall i :: 0 <= i < |l2| ==> '\n' !in l2[i]
    ensures forall i :: 0 <= i < |l1 + l2| ==> '\n' !in (l1 + l2)[i]
  {
  }

  /** Lines cut from `x`, then from the rest followed by `y`, spell `x + y`. */
  lemma JoinTwice(l1: seq<string>, r1: string, l2: seq<string>, r2: string, x: string, y: string)
    requires Join(l1) + r1 == x
    requires Join(l2) + r2 == r1 + y
    requires Join(l1 + l2) == Join(l1) + Join(l2)
    ensures Join(l1 + l2) + r2 == x + y
  {
    assert Join(l1 + l2) + r2 == Join(l1) + (Join(l2) + r2);
  }

  lemma {:induction false} JoinAppend(a: seq<string>, b: seq<string>)
    ensures Join(a + b) == Join(a) + Join(b)
    decreases |a|
  {
    if a == [] {
      assert a + b == b;
    } else {
      assert (a + b)[0] == a[0];
      assert (a + b)[1..] == a[1..] + b;
      JoinAppend(a[1..], b);
    }
  }
}
