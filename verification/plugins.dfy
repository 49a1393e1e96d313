/** A plugin (`Plugin`, muddrop.py lines 550-892) as the matching core sees
    it: a namespace with its sorted trigger and alias lists, its timer list
    and its variables. Loading from the character file and the script
    globals are outside the model. */
module Plugins {
  import opened Text
  import opened Rules
  import opened Timers

  datatype Namespace = Namespace(
    name: string,
    triggers: seq<Trigger>,
    aliases: seq<Alias>,
    timers: seq<Timer>,
    variables: map<string, string>)

  /** `SetVariable` stores every name folded to lower case, so the keys of a
      namespace's variables stay folded. */
  predicate FoldedKeys(vars: map<string, string>) {
    forall k :: k in vars ==> Lower(k) == k
  }
}
