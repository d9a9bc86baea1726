// A program's own view: it declares its options, calls getopt_long until -1, and is told
// what the command line says.
module OptionCalls {
  import opened Wrappers
  import opened OptionParsing
  import opened OptionWriting
  import OptionRoundTrip
  import Getopt

  // The value -1 would end the caller's loop.
  ghost predicate NoMinusOne(p: Program) {
    p.long.Some? ==> forall o | o in p.long.value :: o.flag.None? ==> o.val != -1
  }

  function Rest(tail: Tail): seq<string> {
    if tail.End? then [] else tail.rest
  }

  lemma UnreadRest(w: seq<string>, i: nat, gs: seq<Group>, tail: Tail)
    requires i <= |w| && w[i..] == AllWords(gs, tail)
    ensures Unread(tail) <= |w| && w[|w| - Unread(tail)..] == Rest(tail)
    decreases |gs|
  {
    if gs == [] {
      assert w == w[..i] + w[i..];
    } else {
      assert w[i..] == Words(gs[0]) + AllWords(gs[1..], tail);
      assert w[i + |Words(gs[0])|..] == w[i..][|Words(gs[0])|..];
      UnreadRest(w, i + |Words(gs[0])|, gs[1..], tail);
    }
  }

  // The words behind index first are gs and tail, written out.  The calls report what
  // these say, in order, with what the caller finds stored after each of them; in the end
  // the option words stand first, then those passed over, then those not read.
  method Parse(st: Getopt.State, argv: array<string>, p: Program, ghost gs: seq<Group>, ghost tail: Tail)
      returns (events: seq<(int, Option<string>)>, shown: seq<Getopt.Shown>)
    requires WellFormed(p) && NoMinusOne(p) && AllFit(p, gs, tail)
    requires 0 < st.FirstIndex() <= argv.Length && argv[st.FirstIndex()..] == AllWords(gs, tail)
    requires st.optreset || st.optind == 0 || (st.place == "" && st.nonoptStart == -1 && st.nonoptEnd == -1)
    modifies st, argv
    ensures events == Getopt.Pairs(AllEvents(p, gs, tail))
    ensures Getopt.Traces(shown, old(st.Shows()), AllEvents(p, gs, tail))
    ensures st.Shows() == Getopt.ShownAfter(old(st.Shows()), AllEvents(p, gs, tail))
    ensures argv[..] == old(argv[..st.FirstIndex()]) + AllTaken(p, gs, tail) + AllSkipped(p, gs) + Rest(tail)
    ensures st.optind == old(st.FirstIndex()) + |AllTaken(p, gs, tail)|
  {
    hide Scan, NextStep, ParseOption, ParseShort, ParseLong, Resolve, Resolves, WellFormed, AllFit, AllEvents,
      AllTaken, AllSkipped, AllWords, Getopt.Pairs, Getopt.Traces, Getopt.ShownAfter, Configure;
    var options := OptionString(p);
    OptionRoundTrip.Configured(p);
    ghost var cfg := Configure(options, p.long, p.permute, p.longOnly, p.posixlyCorrect);
    ghost var w, first := argv[..], st.FirstIndex();
    OptionRoundTrip.ReadBack(cfg, p, w, first, gs, tail);
    UnreadRest(w, first, gs, tail);
    events, shown := st.ParseAll(argv, options, p.long, p.permute, p.longOnly, p.posixlyCorrect);
  }
}
