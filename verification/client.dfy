/** The local client's side of the relay (`MUDServerProtocol` and
    `MUDServer`, muddrop.py lines 1029-1078): a client must give the
    character's name and password before anything is relayed to it, and a
    client that has not done so when the timeout fires is disconnected.

    Lines written with `sendLine` get Twisted's "\r\n" appended; the model
    keeps the line without it. Once the relay has closed a connection,
    Twisted hands no further lines to it. */
module LocalClient {
  import opened Text

  /** `intState`: 0 waiting for the name, 1 for the password, 2 signed in. */
  datatype Phase = AwaitingName | AwaitingPassword | Authenticated

  /** The character's configured name and password. */
  datatype Credentials = Credentials(name: string, password: string)

  /** One client connection: its phase, the name it gave, and whether the
      relay has not yet closed it. */
  datatype Session = Session(phase: Phase, authName: string, open: bool)

  /** What the relay does in answer to a client line. */
  datatype Effect =
    | Say(text: string)         // a line written to the client
    | Close                     // the connection is closed
    | Announce                  // `OnRemoteConnect` is called
    | RunAliases(line: string)  // the line goes to `fnMatchAliases`

  const Greeting: string := "You have connected to MUDdrop, you have 20 seconds to authenticate. Please enter\nthe character name:"
  const AskPassword: string := "Please enter the character password:"
  const Refusal: string := "Wrong name/password.\n"

  function Welcome(name: string): string {
    "Welcome to " + name + ".\n"
  }

  /** `connectionMade`: a new client starts by being asked its name. */
  function Connect(): (r: (Session, seq<Effect>))
    ensures r.0.phase == AwaitingName && r.0.open
    ensures r.1 == [Say(Greeting)]
  {
    (Session(AwaitingName, "", true), [Say(Greeting)])
  }

  /** `lineReceived`. The name is compared without regard to the case of
      ASCII letters, the password exactly; a wrong pair closes the
      connection. */
  function LineReceived(s: Session, cred: Credentials, line: string): (r: (Session, seq<Effect>))
    ensures !s.open ==> r == (s, [])
    ensures s.open && s.phase == AwaitingName ==>
              r.0 == Session(AwaitingPassword, line, true) && r.1 == [Say(AskPassword)]
    ensures s.open && s.phase == AwaitingPassword ==>
              (r.0.phase == Authenticated <==> Lower(s.authName) == Lower(cred.name) && line == cred.password)
    ensures s.open && s.phase == AwaitingPassword && r.0.phase == Authenticated ==>
              r.0 == s.(phase := Authenticated) && r.1 == [Say(Welcome(cred.name)), Announce]
    ensures s.open && s.phase == AwaitingPassword && r.0.phase != Authenticated ==>
              !r.0.open && r.1 == [Say(Refusal), Close]
    ensures s.phase == Authenticated ==> r.0 == s
    ensures s.open && s.phase == Authenticated ==> r.1 == [RunAliases(line)]
    ensures r.1 != [] && r.1[0].RunAliases? ==> s.phase == Authenticated
  {
    if !s.open then (s, [])
    else
      match s.phase
      case AwaitingName => (Session(AwaitingPassword, line, true), [Say(AskPassword)])
      case AwaitingPassword =>
        if Lower(s.authName) == Lower(cred.name) && line == cred.password then
          (s.(phase := Authenticated), [Say(Welcome(cred.name)), Announce])
        else (s.(open := false), [Say(Refusal), Close])
      case Authenticated => (s, [RunAliases(line)])
  }

  /** A run of client lines, one after another. */
  function Feed(s: Session, cred: Credentials, lines: seq<string>): (r: (Session, seq<Effect>))
    decreases |lines|
  {
    if lines == [] then (s, [])
    else
      var step := LineReceived(s, cred, lines[0]);
      var rest := Feed(step.0, cred, lines[1..]);
      (rest.0, step.1 + rest.1)
  }

  /** Signed in stays signed in. */
  lemma {:induction false} FeedKeepsAuthenticated(s: Session, cred: Credentials, lines: seq<string>)
    requires s.phase == Authenticated
    ensures Feed(s, cred, lines).0 == s
    decreases |lines|
  {
    if lines != [] {
      FeedKeepsAuthenticated(LineReceived(s, cred, lines[0]).0, cred, lines[1..]);
    }
  }

  /** A closed connection never signs in. */
  lemma {:induction false} FeedClosedStaysClosed(s: Session, cred: Credentials, lines: seq<string>)
    requires !s.open
    ensures Feed(s, cred, lines) == (s, [])
    decreases |lines|
  {
    if lines != [] {
      FeedClosedStaysClosed(s, cred, lines[1..]);
      assert LineReceived(s, cred, lines[0]) == (s, []);
      var none: seq<Effect> := [];
      assert none + none == none;
    }
  }

  /** What it takes to be signed in at the end of a run of lines, from each
      phase. */
  lemma {:induction false} FeedAuthenticates(s: Session, cred: Credentials, lines: seq<string>)
    requires Feed(s, cred, lines).0.phase == Authenticated
    ensures || s.phase == Authenticated
            || (s.open && s.phase == AwaitingPassword && |lines| >= 1 &&
                Lower(s.authName) == Lower(cred.name) && lines[0] == cred.password)
            || (s.open && s.phase == AwaitingName && |lines| >= 2 &&
                Lower(lines[0]) == Lower(cred.name) && lines[1] == cred.password)
    decreases |lines|
  {
    if lines != [] && s.phase != Authenticated {
      var next := LineReceived(s, cred, lines[0]).0;
      if !s.open {
        FeedClosedStaysClosed(s, cred, lines);
      } else if s.phase == AwaitingPassword && next.phase != Authenticated {
        FeedClosedStaysClosed(next, cred, lines[1..]);
      } else if s.phase == AwaitingName {
        FeedAuthenticates(next, cred, lines[1..]);
        assert |lines[1..]| >= 1 && lines[1..][0] == lines[1];
      }
    }
  }

  /** A new client is signed in after a run of lines exactly when its first
      line is the character's name (in any case of ASCII letters) and its
      second the exact password. */
  lemma SignInIff(cred: Credentials, lines: seq<string>)
    ensures Feed(Connect().0, cred, lines).0.phase == Authenticated <==>
              |lines| >= 2 && Lower(lines[0]) == Lower(cred.name) && lines[1] == cred.password
  {
    var s := Connect().0;
    if |lines| >= 2 && Lower(lines[0]) == Lower(cred.name) && lines[1] == cred.password {
      var s1 := LineReceived(s, cred, lines[0]).0;
      var s2 := LineReceived(s1, cred, lines[1]).0;
      assert s2.phase == Authenticated;
      FeedKeepsAuthenticated(s2, cred, lines[2..]);
      assert lines[1..][0] == lines[1] && lines[1..][1..] == lines[2..];
    }
    if Feed(s, cred, lines).0.phase == Authenticated {
      FeedAuthenticates(s, cred, lines);
    }
  }

  /** The listening side (`MUDServer`): whether it still listens, whether
      a client is connected, and that client's session. */
  datatype Server = Server(listening: bool, connected: bool, client: Session)

  /** `fnSend`: text reaches the client only when one is connected and
      signed in. */
  function Send(srv: Server, text: string): (written: seq<string>)
    ensures written != [] <==> srv.connected && srv.client.phase == Authenticated
    ensures forall w :: w in written ==> w == text
  {
    if srv.connected && srv.client.phase == Authenticated then [text] else []
  }

  /** `close`: stop listening and close the client connection, if any. */
  function CloseServer(srv: Server): (r: Server)
    ensures !r.listening && r.connected == srv.connected && r.client.phase == srv.client.phase
    ensures srv.connected ==> !r.client.open
    ensures !srv.connected ==> r.client == srv.client
  {
    if srv.connected then Server(false, true, srv.client.(open := false)) else srv.(listening := false)
  }

  /** `timeout`: twenty seconds after connecting, a client that has not
      signed in is closed out; a signed-in one is left alone. */
  function Timeout(srv: Server): (r: Server)
    ensures srv.client.phase == Authenticated ==> r == srv
    ensures srv.client.phase != Authenticated && srv.connected ==> !r.client.open && !r.listening
  {
    if srv.client.phase != Authenticated then CloseServer(srv) else srv
  }
}
