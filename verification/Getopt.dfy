// getopt_internal and its static state: the words are moved lazily, between calls.
module Getopt {
  import opened Wrappers
  import opened OptionParsing
  import BlockRotation
  import OptionRerun

  // optopt, *idx and the caller's variables.
  datatype Shown = Shown(optopt: int, longIndex: int, stored: map<nat, int>)

  function ShownAfter(v: Shown, events: seq<Event>): Shown {
    if events == [] then v
    else
      var u, e := ShownAfter(v, events[..|events| - 1]), events[|events| - 1];
      Shown(if e.optopt.Some? then e.optopt.value else u.optopt,
            if e.index.Some? then e.index.value else u.longIndex,
            if e.store.Some? then u.stored[e.store.value.0 := e.store.value.1] else u.stored)
  }

  lemma ShownAfterMore(v: Shown, done: seq<Event>, e: Event)
    ensures ShownAfter(v, done + [e]).optopt == if e.optopt.Some? then e.optopt.value else ShownAfter(v, done).optopt
    ensures ShownAfter(v, done + [e]).longIndex ==
            if e.index.Some? then e.index.value else ShownAfter(v, done).longIndex
    ensures var m := ShownAfter(v, done).stored;
            ShownAfter(v, done + [e]).stored ==
            if e.store.Some? then m[e.store.value.0 := e.store.value.1] else m
  {
    assert (done + [e])[..|done|] == done;
  }

  class State {
    var optind: int
    var optopt: int
    var optarg: Option<string>
    var optreset: bool
    var place: string         // what is left of the current word; empty for EMSG
    var nonoptStart: int
    var nonoptEnd: int
    var longIndex: int        // *idx
    var stored: map<nat, int> // the caller's variables, by flag
    // The run so far: the original words and the index it started at, the words
    // taken as options, and the non-options skipped.
    ghost var words: seq<string>
    ghost var base: int
    ghost var taken: seq<string>
    ghost var skipped: seq<string>

    // Where the words of the run are. From optind on nothing has moved; before it come
    // the options, with the skipped words behind them or in the middle.
    ghost predicate Layout(argv: array<string>)
      reads `words, `base, `optind, `nonoptStart, `nonoptEnd, `taken, `skipped, argv
    {
      LaidTo(argv, optind)
    }

    // The same, for the words up to an index.
    ghost predicate LaidTo(argv: array<string>, i: int)
      reads `words, `base, `nonoptStart, `nonoptEnd, `taken, `skipped, argv
    {
      && argv.Length == |words| && 0 <= base <= i <= |words|
      && argv[..base] == words[..base] && argv[i..] == words[i..]
      && Blocks(argv[..], i)
    }

    ghost predicate Blocks(a: seq<string>, end: int)
      reads `base, `nonoptStart, `nonoptEnd, `taken, `skipped
    {
      && 0 <= base <= end <= |a|
      && if nonoptStart == -1 then
           nonoptEnd == -1 && skipped == [] && a[base..end] == taken
         else if nonoptEnd == -1 then
           skipped != [] && nonoptStart == base + |taken| && a[base..end] == taken + skipped
         else
           base <= nonoptStart < nonoptEnd <= end && skipped == a[nonoptStart..nonoptEnd]
           && taken == a[base..nonoptStart] + a[nonoptEnd..end]
    }

    // Between calls the option block behind the skipped words is not empty, unless
    // the letters of its only word are still being read.
    ghost predicate BlockClosed()
      reads this
    {
      && (place != "" ==> optind < |words| && (nonoptStart == -1 || nonoptEnd != -1))
      && (place == "" && nonoptEnd != -1 ==> nonoptEnd < optind)
    }

    // The call's effect on the rest of the run: done is what has been reported so far.
    ghost predicate Pending(argv: array<string>, cfg: Config, total: Run, done: seq<Event>)
      reads this, argv
    {
      && Layout(argv) && BlockClosed() && (!cfg.permute || cfg.allArgs ==> nonoptStart == -1)
      && Remains(total, done, taken, skipped, Scan(cfg, words, optind, place))
    }

    twostate predicate Reported(ev: Event)
      reads `optarg, `optopt, `longIndex, `stored
    {
      && optarg == ev.arg
      && optopt == (match ev.optopt case None => old(optopt) case Some(c) => c)
      && longIndex == (match ev.index case None => old(longIndex) case Some(k) => k)
      && stored == (match ev.store case None => old(stored) case Some((f, x)) => old(stored)[f := x])
    }

    // What a call leaves for its caller besides optarg.
    function Shows(): Shown
      reads `optopt, `longIndex, `stored
    {
      Shown(optopt, longIndex, stored)
    }

    // The search loop of parse_long_options.
    static method FindLongOption(long: seq<LongOption>, name: string, shortToo: bool, longOnly: bool)
        returns (chosen: int, exactMatch: bool, secondPartialMatch: bool)
      ensures -1 <= chosen < |long|
      ensures Resolves(long, name, shortToo, longOnly,
        if !exactMatch && secondPartialMatch then Ambiguous else if chosen != -1 then Match(chosen) else NoMatch)
    {
      chosen, exactMatch, secondPartialMatch := -1, false, false;
      var i := 0;
      while i < |long|
        invariant 0 <= i <= |long|
        invariant Scanned(long, name, shortToo, longOnly, i, chosen, secondPartialMatch)
      {
        if name <= long[i].name {
          if |long[i].name| == |name| {
            assert Exact(long, name, i);
            return i, true, secondPartialMatch;
          }
          if !(shortToo && |name| == 1) {
            assert Partial(long, name, shortToo, i);
            if chosen == -1 {
              chosen := i;
            } else if longOnly || long[i].hasArg != long[chosen].hasArg
                || long[i].flag != long[chosen].flag || long[i].val != long[chosen].val {
              secondPartialMatch := true;
            }
          }
        }
        i := i + 1;
      }
    }

    // parse_long_options, where key is the text at place
    method ParseLongOptions(argv: array<string>, cfg: Config, key: string, shortToo: bool) returns (r: int)
      requires cfg.long.Some? && 0 <= optind < argv.Length && optarg == None && NoSentinel(cfg)
      modifies `optind, `optarg, `optopt, `longIndex, `stored
      ensures r == -1 <==> ParseLong(cfg, argv[..], old(optind) + 1, key, shortToo).None?
      ensures r == -1 ==> unchanged(this)
      ensures r != -1 ==>
        var s := ParseLong(cfg, argv[..], old(optind) + 1, key, shortToo).value;
        r == s.event.ret && optind == s.next && Reported(s.event)
    {
      hide Resolves, Clash, Partial, Exact, Resolve, IndexOf, UseLong;
      var long := cfg.long.value;
      optind := optind + 1;
      var eq := IndexOf(key, '=');
      var name := if eq < 0 then key else key[..eq];
      var hasEqual := if eq < 0 then None else Some(key[eq + 1..]);
      var chosen, exactMatch, secondPartialMatch := FindLongOption(long, name, shortToo, cfg.longOnly);
      ResolutionUnique(long, name, shortToo, cfg.longOnly, Resolve(long, name, shortToo, cfg.longOnly),
        if !exactMatch && secondPartialMatch then Ambiguous else if chosen != -1 then Match(chosen) else NoMatch);
      if !exactMatch && secondPartialMatch {
        optopt := 0;
        return BADCH;
      }
      if chosen != -1 {
        r := UseLongOption(argv, cfg, chosen, hasEqual);
        return;
      }
      if shortToo {
        optind := optind - 1;
        return -1;
      }
      optopt := 0;
      return BADCH;
    }

    // parse_long_options, once the option is known
    method UseLongOption(argv: array<string>, cfg: Config, k: int, hasEqual: Option<string>) returns (r: int)
      requires cfg.long.Some? && 0 <= k < |cfg.long.value| && 0 <= optind <= argv.Length && optarg == None
      modifies `optind, `optarg, `optopt, `longIndex, `stored
      ensures var s := UseLong(cfg, argv[..], old(optind), k, hasEqual);
        r == s.event.ret && optind == s.next && Reported(s.event)
    {
      var o := cfg.long.value[k];
      if o.hasArg == NO_ARGUMENT && hasEqual.Some? {
        if o.flag.None? {
          optopt := o.val;
        } else {
          optopt := 0;
        }
        return BadArg(cfg.opts);
      }
      if o.hasArg == REQUIRED_ARGUMENT || o.hasArg == OPTIONAL_ARGUMENT {
        if hasEqual.Some? {
          optarg := hasEqual;
        } else if o.hasArg == REQUIRED_ARGUMENT {
          optarg := if optind < argv.Length then Some(argv[optind]) else None;
          optind := optind + 1;
        }
      }
      if o.hasArg == REQUIRED_ARGUMENT && optarg.None? {
        if o.flag.None? {
          optopt := o.val;
        } else {
          optopt := 0;
        }
        optind := optind - 1;
        return BadArg(cfg.opts);
      }
      longIndex := k;
      if o.flag.Some? {
        stored := stored[o.flag.value := o.val];
        return 0;
      } else {
        return o.val;
      }
    }

    // The loop has seen the first n long options: no exact match among them, the first
    // partial one, and whether another one clashes with it.
    static ghost predicate Scanned(long: seq<LongOption>, name: string, shortToo: bool, longOnly: bool, n: int,
        first: int, second: bool)
    {
      && 0 <= n <= |long| && -1 <= first < n
      && (forall j | 0 <= j < n :: !Exact(long, name, j))
      && (first == -1 ==> !second && forall j | 0 <= j < n :: !Partial(long, name, shortToo, j))
      && (first != -1 ==>
          FirstPartial(long, name, shortToo, first) &&
          (second <==> exists j | 0 <= j < n ::
            j != first && Partial(long, name, shortToo, j) && Clash(long[j], long[first], longOnly)))
    }

    // The option letter at place, when it is not taken for a long option.
    method ParseLetter(argv: array<string>, cfg: Config) returns (r: int)
      requires 0 <= optind < argv.Length && place != "" && optarg == None && NoSentinel(cfg)
      modifies `optind, `place, `optarg, `optopt, `longIndex, `stored
      ensures var s := ParseShort(cfg, argv[..], old(optind), old(place));
        r == s.event.ret && optind == s.next && place == s.place && Reported(s.event)
    {
      hide ParseLong, Resolve, Resolves, UseShort, UseLong;
      var optchar := place[0];
      var oli := IndexOf(cfg.opts, optchar);
      place := place[1..];
      if optchar == ':' || oli < 0 {
        if place == "" {
          optind := optind + 1;
        }
        optopt := optchar as int;
        return BADCH;
      }
      if cfg.long.Some? && optchar == 'W' && HasAt(cfg.opts, oli + 1, ';') {
        if place != "" {
        } else if optind + 1 >= argv.Length {
          optind := optind + 1;
          place := "";
          optopt := optchar as int;
          return BadArg(cfg.opts);
        } else {
          optind := optind + 1;
          place := argv[optind];
        }
        r := ParseLongOptions(argv, cfg, place, false);
        place := "";
        return r;
      }
      r := UseLetter(argv, cfg, optchar, oli);
    }

    // The letter optchar, found at index oli of the options string; place is behind it.
    method UseLetter(argv: array<string>, cfg: Config, optchar: char, oli: int) returns (r: int)
      requires 0 <= optind < argv.Length && 0 <= oli && optarg == None
      modifies `optind, `place, `optarg, `optopt
      ensures var s := UseShort(cfg, argv[..], old(optind), optchar, old(place), oli);
        r == s.event.ret && optind == s.next && place == s.place && Reported(s.event)
    {
      if !HasAt(cfg.opts, oli + 1, ':') {
        if place == "" {
          optind := optind + 1;
        }
      } else {
        optarg := None;
        if place != "" {
          optarg := Some(place);
        } else if !HasAt(cfg.opts, oli + 2, ':') {
          optind := optind + 1;
          if optind >= argv.Length {
            place := "";
            optopt := optchar as int;
            return BadArg(cfg.opts);
          } else {
            optarg := Some(argv[optind]);
          }
        }
        place := "";
        optind := optind + 1;
      }
      return optchar as int;
    }

    // The option at place; moved says whether place is past the start of its word.
    method ParseOptionHere(argv: array<string>, cfg: Config, moved: bool) returns (r: int)
      requires 0 <= optind < argv.Length && place != "" && optarg == None && NoSentinel(cfg)
      modifies `optind, `place, `optarg, `optopt, `longIndex, `stored
      ensures var s := ParseOption(cfg, argv[..], old(optind), old(place), moved);
        r == s.event.ret && optind == s.next && place == s.place && Reported(s.event)
    {
      hide ParseShort, ParseLong, Resolve, Resolves;
      if cfg.long.Some? && moved && (place[0] == '-' || cfg.longOnly) {
        var shortToo := false;
        var key := place;
        if place[0] == '-' {
          key := place[1..];
        } else if place[0] != ':' && place[0] in cfg.opts {
          shortToo := true;
        }
        var optchar := ParseLongOptions(argv, cfg, key, shortToo);
        if optchar != -1 {
          place := "";
          return optchar;
        }
      }
      r := ParseLetter(argv, cfg);
    }

    static lemma ExchangedParts(a: seq<string>, first: int, start: int, mid: int, end: int)
      requires 0 <= first <= start <= mid <= end <= |a|
      ensures var b := BlockRotation.Exchanged(a, start, mid, end);
        && |b| == |a| && b[..first] == a[..first] && b[end..] == a[end..]
        && b[first..end] == a[first..start] + a[mid..end] + a[start..mid]
    {
      var b := BlockRotation.Exchanged(a, start, mid, end);
      assert b[..start] == a[..start];
      assert b[first..start] == a[first..start];
      assert b[start..end] == a[mid..end] + a[start..mid];
      assert b[first..end] == b[first..start] + b[start..end];
      assert b[..first] == b[..start][..first];
    }

    // Bring the skipped words behind the options, if options have followed them.
    method Permute(argv: array<string>)
      requires Layout(argv) && nonoptEnd != -1 && nonoptEnd < optind
      modifies argv
      ensures argv.Length == |words| && argv[..base] == words[..base] && argv[optind..] == words[optind..]
      ensures argv[base..optind] == taken + skipped
    {
      ExchangedParts(argv[..], base, nonoptStart, nonoptEnd, optind);
      BlockRotation.PermuteArgs(nonoptStart, nonoptEnd, optind, argv);
      assert argv[..base] == argv[..][..base] && argv[optind..] == argv[..][optind..];
      assert argv[base..optind] == argv[..][base..optind];
    }

    // The word at optind is a non-option to be passed over.
    method SkipNonOption(argv: array<string>)
      requires Layout(argv) && BlockClosed() && place == "" && optind < argv.Length
      modifies `optind, `nonoptStart, `nonoptEnd, `skipped, argv
      ensures Layout(argv) && BlockClosed() && nonoptEnd == -1 && nonoptStart != -1
      ensures optind == old(optind) + 1 && skipped == old(skipped) + [words[old(optind)]]
    {
      ghost var i, a := optind, argv[..];
      if nonoptStart == -1 {
        nonoptStart := optind;
      } else if nonoptEnd != -1 {
        Permute(argv);
        nonoptStart := optind - (nonoptEnd - nonoptStart);
        nonoptEnd := -1;
      }
      a := argv[..];
      assert a[base..i] == taken + skipped && a[..base] == words[..base] && a[i..] == words[i..];
      Passed(a, words, base, i, taken + skipped);
      skipped := skipped + [words[i]];
      optind := optind + 1;
      assert a[base..i + 1] == taken + skipped;
    }

    static lemma Passed(a: seq<string>, w: seq<string>, first: int, i: int, seen: seq<string>)
      requires 0 <= first <= i < |a| == |w| && a[first..i] == seen && a[i..] == w[i..]
      ensures a[i] == w[i] && a[first..i + 1] == seen + [w[i]] && a[i + 1..] == w[i + 1..]
    {
      assert a[i] == a[i..][0] && w[i] == w[i..][0];
      assert a[i + 1..] == a[i..][1..] && w[i + 1..] == w[i..][1..];
    }

    // All words in their final places, when the run has stopped at index i.
    ghost predicate AtRest(argv: array<string>, i: int)
      reads this, argv
    {
      && 0 <= base <= |words| && 0 <= i <= |words| && nonoptStart == -1 && nonoptEnd == -1
      && argv[..] == words[..base] + taken + skipped + words[i..]
      && optind == base + |taken|
    }

    lemma RestIsFinish(argv: array<string>, i: int, total: Run)
      requires AtRest(argv, i) && place == ""
      requires i == total.stop && taken == total.opts && skipped == total.nonopts
      ensures Finished(argv, base, words, total)
    {
    }

    // The end of the words: whatever was skipped comes behind the options.
    method EndOfWords(argv: array<string>)
      requires Layout(argv) && BlockClosed() && place == ""
      modifies `optind, `nonoptStart, `nonoptEnd, argv
      ensures AtRest(argv, old(optind))
    {
      hide Scan, NextStep, ParseOption, ParseShort, ParseLong, Resolve, Resolves;
      ghost var end := optind;
      if nonoptEnd != -1 {
        Permute(argv);
        optind := optind - (nonoptEnd - nonoptStart);
      } else if nonoptStart != -1 {
        optind := nonoptStart;
      }
      nonoptStart, nonoptEnd := -1, -1;
      ghost var a := argv[..];
      assert a[base..end] == taken + skipped && a[..base] == words[..base] && a[end..] == words[end..];
      InThreeParts(a, words, base, end, taken, skipped);
    }

    static lemma InThreeParts(a: seq<string>, w: seq<string>, i: int, j: int, x: seq<string>, y: seq<string>)
      requires 0 <= i <= j <= |a| == |w| && a[..i] == w[..i] && a[i..j] == x + y && a[j..] == w[j..]
      ensures a == w[..i] + x + y + w[j..]
    {
      assert a == a[..i] + a[i..j] + a[j..];
    }

    // The option just parsed took the words from i up to optind.
    ghost method TakeWords(argv: array<string>, i: int)
      requires LaidTo(argv, i) && i <= optind <= |words|
      requires nonoptStart == -1 || nonoptEnd != -1
      modifies `taken
      ensures taken == old(taken) + words[i..optind]
      ensures Layout(argv)
    {
      var a, j := argv[..], optind;
      Sliced(a, words, base, i, j);
      if nonoptStart != -1 {
        Sliced(a, words, nonoptEnd, i, j);
      }
      taken := taken + words[i..j];
    }

    static lemma Sliced(a: seq<string>, w: seq<string>, first: int, i: int, j: int)
      requires 0 <= first <= i <= j <= |a| == |w| && a[i..] == w[i..]
      ensures a[first..j] == a[first..i] + w[i..j] && a[j..] == w[j..]
    {
      assert a[i..j] == a[i..][..j - i] && w[i..j] == w[i..][..j - i];
      assert a[j..] == a[i..][j - i..] && w[j..] == w[i..][j - i..];
      assert a[first..j] == a[first..i] + a[i..j];
    }

    // The word at optind is a non-option that is passed over.
    method SkipOne(argv: array<string>, cfg: Config, ghost total: Run, ghost done: seq<Event>)
      requires Pending(argv, cfg, total, done) && place == "" && optind < argv.Length
      requires IsNonOption(cfg, words[optind]) && !cfg.allArgs && cfg.permute
      modifies `optind, `nonoptStart, `nonoptEnd, `skipped, argv
      ensures Pending(argv, cfg, total, done) && optind == old(optind) + 1
    {
      hide Scan, NextStep, ParseOption, ParseShort, ParseLong, Resolve, Resolves;
      RemainsAfterSkip(cfg, words, optind, total, done, taken, skipped);
      SkipNonOption(argv);
    }

    // Pass over non-options while permuting.
    method SkipToOption(argv: array<string>, cfg: Config, ghost total: Run, ghost done: seq<Event>)
      requires Pending(argv, cfg, total, done) && place == ""
      modifies `optind, `nonoptStart, `nonoptEnd, `skipped, argv
      ensures Pending(argv, cfg, total, done) && optind >= old(optind)
      ensures optind < argv.Length ==> argv[optind] == words[optind]
      ensures optind < argv.Length && IsNonOption(cfg, words[optind]) ==> cfg.allArgs || !cfg.permute
    {
      hide Scan, NextStep, ParseOption, ParseShort, ParseLong, Resolve, Resolves;
      while optind < argv.Length
        invariant Pending(argv, cfg, total, done) && optind >= old(optind)
        decreases argv.Length - optind
      {
        WordInPlace(argv);
        if !IsNonOption(cfg, argv[optind]) || cfg.allArgs || !cfg.permute {
          return;
        }
        SkipOne(argv, cfg, total, done);
      }
    }

    lemma WordInPlace(argv: array<string>)
      requires Layout(argv) && optind < argv.Length
      ensures argv[optind] == words[optind]
    {
      assert argv[optind..][0] == words[optind..][0];
    }

    // The option word or letter at place is taken; the words skipped before it, if
    // any, form a closed block.
    method TakeOption(argv: array<string>, cfg: Config, moved: bool, ghost letters: string, ghost total: Run,
        ghost done: seq<Event>)
        returns (r: int, ghost ev: Event)
      requires Layout(argv) && NoSentinel(cfg) && (!cfg.permute || cfg.allArgs ==> nonoptStart == -1)
      requires (nonoptStart == -1 || nonoptEnd != -1) && nonoptEnd <= optind
      requires AtOption(cfg, words, optind, letters) && optarg == None
      requires letters != "" ==> place == letters && moved
      requires letters == "" ==> place == Letters(words[optind]) && moved == (|words[optind]| > 1)
      requires Remains(total, done, taken, skipped, Scan(cfg, words, optind, letters))
      modifies this
      ensures r != -1 && r == ev.ret && Reported(ev) && Pending(argv, cfg, total, done + [ev])
      ensures base == old(base) && words == old(words) && optreset == old(optreset)
      ensures Progress(old(optind), letters)
    {
      hide Scan, ParseShort, ParseLong, Resolve, Resolves, Blocks, Reported, Remains;
      ghost var i, step := optind, NextStep(cfg, words, optind, letters);
      SameTail(cfg, argv[..], words, i, place, moved);
      RemainsAfterOption(cfg, words, i, letters, total, done, taken, skipped);
      r := ParseOptionHere(argv, cfg, moved);
      ev := step.event;
      TakeWords(argv, i);
    }

    // An option ends the block of non-options before it.
    method CloseBlock(argv: array<string>)
      requires Layout(argv)
      modifies `nonoptEnd
      ensures Layout(argv) && (nonoptStart == -1 || nonoptEnd != -1) && nonoptEnd <= optind
    {
      if nonoptStart != -1 && nonoptEnd == -1 {
        ghost var a := argv[..];
        assert a[base..nonoptStart] == a[base..optind][..|taken|] == taken;
        assert a[nonoptStart..optind] == a[base..optind][|taken|..] == skipped;
        nonoptEnd := optind;
        assert a[nonoptEnd..optind] == [];
      }
    }

    // The end of the vector, or of parsing without permutation: the run is over.
    ghost predicate Finished(argv: array<string>, first: int, orig: seq<string>, total: Run)
      reads this, argv
    {
      && 0 <= first <= |orig| && total.stop <= |orig|
      && argv[..] == orig[..first] + total.opts + total.nonopts + orig[total.stop..]
      && optind == first + |total.opts| && place == "" && nonoptStart == -1 && nonoptEnd == -1
    }

    method FinishAtEnd(argv: array<string>, cfg: Config, ghost total: Run, ghost done: seq<Event>)
      requires Pending(argv, cfg, total, done) && place == "" && optind >= argv.Length
      modifies `optind, `nonoptStart, `nonoptEnd, argv
      ensures total.events == done && Finished(argv, base, words, total)
    {
      hide AtRest, Finished, Scan, NextStep;
      ghost var i := optind;
      RemainsAtEnd(cfg, words, i, total, done, taken, skipped);
      EndOfWords(argv);
      RestIsFinish(argv, i, total);
    }

    method FinishAtDashes(argv: array<string>, cfg: Config, ghost total: Run, ghost done: seq<Event>)
      requires Pending(argv, cfg, total, done) && place == "" && optind < argv.Length && words[optind] == "--"
      modifies `optind, `nonoptStart, `nonoptEnd, `taken, argv
      ensures total.events == done && Finished(argv, base, words, total)
    {
      hide AtRest, Finished, Blocks, Scan, NextStep;
      ghost var i := optind;
      assert words[i..i + 1] == ["--"];
      RemainsAtEnd(cfg, words, i, total, done, taken, skipped);
      CloseBlock(argv);
      optind := optind + 1;
      TakeWords(argv, i);
      EndOfWords(argv);
      RestIsFinish(argv, i + 1, total);
    }

    lemma FinishAtNonOption(argv: array<string>, cfg: Config, total: Run, done: seq<Event>)
      requires Pending(argv, cfg, total, done) && place == "" && optind < argv.Length
      requires IsNonOption(cfg, words[optind]) && !cfg.allArgs && !cfg.permute
      ensures total.events == done && Finished(argv, base, words, total)
    {
      RemainsAtEnd(cfg, words, optind, total, done, taken, skipped);
      assert argv[..] == argv[..base] + argv[base..optind] + argv[optind..];
    }

    method TakeInOrder(argv: array<string>, cfg: Config, ghost total: Run, ghost done: seq<Event>)
        returns (ghost ev: Event)
      requires Pending(argv, cfg, total, done) && place == "" && optind < argv.Length
      requires IsNonOption(cfg, words[optind]) && cfg.allArgs
      modifies `optind, `optarg, `taken
      ensures ev == Event(INORDER, Some(words[old(optind)]), None, None, None)
      ensures optarg == ev.arg && optind == old(optind) + 1 && Pending(argv, cfg, total, done + [ev])
    {
      hide Scan, NextStep, ParseOption, ParseShort, ParseLong, Resolve, Resolves;
      WordInPlace(argv);
      RemainsAfterInOrder(cfg, words, optind, total, done, taken, skipped);
      ev := Event(INORDER, Some(words[optind]), None, None, None);
      assert words[optind..optind + 1] == [words[optind]];
      optarg := Some(argv[optind]);
      optind := optind + 1;
      TakeWords(argv, optind - 1);
    }

    // Look for the next option word; without one, the call ends here with r.
    method NextWord(argv: array<string>, cfg: Config, ghost total: Run, ghost done: seq<Event>)
        returns (found: bool, r: int, ghost ev: Event)
      requires Pending(argv, cfg, total, done) && place == "" && optarg == None
      modifies `optind, `optarg, `nonoptStart, `nonoptEnd, `taken, `skipped, argv
      ensures found ==> optind >= old(optind) && Layout(argv) && AtOption(cfg, words, optind, "")
      ensures found ==> argv[optind] == words[optind] && optarg == None
      ensures found ==> (nonoptStart == -1 || nonoptEnd != -1) && nonoptEnd <= optind
      ensures found ==> (!cfg.permute || cfg.allArgs ==> nonoptStart == -1)
      ensures found ==> Remains(total, done, taken, skipped, Scan(cfg, words, optind, ""))
      ensures !found && r != -1 ==> r == ev.ret && optarg == ev.arg && Pending(argv, cfg, total, done + [ev])
      ensures !found && r != -1 ==> optind > old(optind) && ev.optopt == None && ev.index == None && ev.store == None
      ensures !found && r == -1 ==> total.events == done && Finished(argv, base, words, total)
    {
      hide Scan, NextStep, ParseOption, ParseShort, ParseLong, Resolve, Resolves;
      found, r, ev := false, -1, Event(0, None, None, None, None);
      SkipToOption(argv, cfg, total, done);
      if optind >= argv.Length {
        FinishAtEnd(argv, cfg, total, done);
      } else if IsNonOption(cfg, argv[optind]) {
        if cfg.allArgs {
          ev := TakeInOrder(argv, cfg, total, done);
          r := INORDER;
        } else {
          FinishAtNonOption(argv, cfg, total, done);
        }
      } else if argv[optind] == "--" {
        FinishAtDashes(argv, cfg, total, done);
      } else {
        CloseBlock(argv);
        found := true;
      }
    }

    // A call that starts on a new word.
    method StepFresh(argv: array<string>, cfg: Config, ghost total: Run, ghost done: seq<Event>)
        returns (r: int, ghost ev: Event)
      requires Pending(argv, cfg, total, done) && place == "" && optarg == None && NoSentinel(cfg)
      modifies this, argv
      ensures base == old(base) && words == old(words) && optreset == old(optreset)
      ensures r != -1 ==> r == ev.ret && Reported(ev) && Pending(argv, cfg, total, done + [ev])
      ensures r != -1 ==> Progress(old(optind), "")
      ensures r == -1 ==> total.events == done && Finished(argv, base, words, total)
      ensures r == -1 ==> Shows() == old(Shows())
    {
      hide Scan, NextStep, ParseOption, ParseShort, ParseLong, Resolve, Resolves, Blocks, Remains;
      var found;
      found, r, ev := NextWord(argv, cfg, total, done);
      if found {
        place := Letters(argv[optind]);
        ghost var i := optind;
        r, ev := TakeOption(argv, cfg, |argv[optind]| > 1, "", total, done);
        assert Progress(i, "") && i >= old(optind);
      }
    }

    // One call of getopt_internal, on a run with events still to come or at its end.
    method Step(argv: array<string>, cfg: Config, ghost total: Run, ghost done: seq<Event>)
        returns (r: int, ghost ev: Event)
      requires Pending(argv, cfg, total, done) && NoSentinel(cfg)
      modifies this, argv
      ensures base == old(base) && words == old(words) && optreset == old(optreset)
      ensures r != -1 ==> r == ev.ret && Reported(ev) && Pending(argv, cfg, total, done + [ev])
      ensures r != -1 ==> Progress(old(optind), old(place))
      ensures r == -1 ==> total.events == done && Finished(argv, base, words, total)
      ensures r == -1 ==> Shows() == old(Shows())
    {
      hide Scan, NextStep, ParseOption, ParseShort, ParseLong, Resolve, Resolves;
      optarg := None;
      if place == "" {
        r, ev := StepFresh(argv, cfg, total, done);
      } else {
        r, ev := TakeOption(argv, cfg, true, place, total, done);
      }
    }

    constructor ()
      ensures optind == 1 && place == "" && !optreset && nonoptStart == -1 && nonoptEnd == -1
    {
      optind, optopt, optarg, optreset := 1, BADCH, None, false;
      place, nonoptStart, nonoptEnd := "", -1, -1;
      longIndex, stored := 0, map[];
    }

    // The first call of a run: the whole of it remains.
    ghost method Start(argv: array<string>, cfg: Config)
      requires 0 <= optind <= argv.Length && place == "" && nonoptStart == -1 && nonoptEnd == -1
      modifies `words, `base, `taken, `skipped
      ensures words == argv[..] && base == optind
      ensures Pending(argv, cfg, Scan(cfg, argv[..], optind, ""), [])
    {
      hide Scan, NextStep, ParseOption, ParseShort, ParseLong, Resolve, Resolves;
      words, base, taken, skipped := argv[..], optind, [], [];
    }

    // What getopt_internal asks of its caller: an unfinished run of orig from index
    // first on, or a reset.
    ghost predicate Ready(argv: array<string>, cfg: Config, orig: seq<string>, first: int, done: seq<Event>)
      reads this, argv
    {
      && 0 <= first <= |orig|
      && if optreset || optind == 0 then
           done == [] && orig == argv[..] && 0 < first == FirstIndex()
         else
           orig == words && first == base && Pending(argv, cfg, Scan(cfg, orig, first, ""), done)
    }

    // optind 0 asks for a reset to 1.
    function FirstIndex(): int
      reads this
    {
      if optind == 0 then 1 else optind
    }

    method Reset(argv: array<string>, cfg: Config)
      requires 0 < FirstIndex() <= argv.Length
      modifies this
      ensures !optreset && optind == old(FirstIndex()) && words == argv[..] && base == optind
      ensures optopt == old(optopt) && longIndex == old(longIndex) && stored == old(stored)
      ensures Pending(argv, cfg, Scan(cfg, argv[..], optind, ""), [])
    {
      hide Scan, NextStep, ParseOption, ParseShort, ParseLong, Resolve, Resolves;
      if optind == 0 {
        optind := 1;
      }
      nonoptStart, nonoptEnd := -1, -1;
      optreset, place := false, "";
      Start(argv, cfg);
    }

    // getopt_internal; ev says what r reports, done is what the run has reported before.
    method GetoptInternal(argv: array<string>, options: Option<string>, long: Option<seq<LongOption>>, permute: bool,
        longOnly: bool, posixlyCorrect: bool, ghost orig: seq<string>, ghost first: int, ghost done: seq<Event>)
        returns (r: int, ghost ev: Event)
      requires options.Some? ==>
        var cfg := Configure(options.value, long, permute, longOnly, posixlyCorrect);
        NoSentinel(cfg) && Ready(argv, cfg, orig, first, done)
      modifies this, argv
      ensures options.None? ==> r == -1 && unchanged(this) && argv[..] == old(argv[..])
      ensures options.Some? ==>
        var cfg := Configure(options.value, long, permute, longOnly, posixlyCorrect);
        Answered(argv, cfg, orig, first, done, r, ev)
      ensures options.Some? && r != -1 ==> Reported(ev)
      ensures r == -1 ==> Shows() == old(Shows())
      ensures options.Some? && r != -1 && !old(optreset) && old(optind) != 0 ==> Progress(old(optind), old(place))
    {
      hide Scan, NextStep, ParseOption, ParseShort, ParseLong, Resolve, Resolves;
      ev := Event(0, None, None, None, None);
      if options.None? {
        return -1, ev;
      }
      var cfg := Configure(options.value, long, permute, longOnly, posixlyCorrect);
      if optreset || optind == 0 {
        Reset(argv, cfg);
      }
      r, ev := Step(argv, cfg, Scan(cfg, orig, first, ""), done);
    }

    // The state after a call: either one more event reported, or the run over and the
    // words in their final places.
    ghost predicate Answered(argv: array<string>, cfg: Config, orig: seq<string>, first: int, done: seq<Event>,
        r: int, ev: Event)
      reads this, argv
      requires 0 <= first <= |orig|
    {
      var total := Scan(cfg, orig, first, "");
      && !optreset
      && if r == -1 then total.events == done && Finished(argv, first, orig, total)
         else r == ev.ret && Ready(argv, cfg, orig, first, done + [ev])
    }

    // Fewer words are unread, or fewer letters of the current one.
    ghost predicate Progress(i: int, letters: string)
      reads this
    {
      optind > i || (optind == i && i >= 0 && place != "" && |place| < LettersLeft(words, i, letters))
    }

    twostate lemma ReportedShown(v: (Shown, seq<Event>, Event))
      requires Reported(v.2) && old(Shows()) == ShownAfter(v.0, v.1)
      ensures Shows() == ShownAfter(v.0, v.1 + [v.2]) && optarg == v.2.arg
    {
      ShownAfterMore(v.0, v.1, v.2);
    }

    // One call, with its effect on what the caller sees.
    method Call(argv: array<string>, options: string, long: Option<seq<LongOption>>, permute: bool, longOnly: bool,
        posixlyCorrect: bool, ghost orig: seq<string>, ghost first: int, ghost done: seq<Event>, ghost v: Shown)
        returns (r: int, ghost ev: Event)
      requires var cfg := Configure(options, long, permute, longOnly, posixlyCorrect);
        NoSentinel(cfg) && Ready(argv, cfg, orig, first, done)
      requires Shows() == ShownAfter(v, done)
      modifies this, argv
      ensures var cfg := Configure(options, long, permute, longOnly, posixlyCorrect);
        Answered(argv, cfg, orig, first, done, r, ev)
      ensures r != -1 ==> optarg == ev.arg
      ensures Shows() == ShownAfter(v, if r == -1 then done else done + [ev])
      ensures r != -1 && !old(optreset) && old(optind) != 0 ==> Progress(old(optind), old(place))
    {
      hide Scan, NextStep, ParseOption, ParseShort, ParseLong, Resolve, Resolves, ShownAfter, Reported;
      r, ev := GetoptInternal(argv, Some(options), long, permute, longOnly, posixlyCorrect, orig, first, done);
      if r != -1 {
        ReportedShown((v, done, ev));
      }
    }

    // The caller's loop around getopt_long, from a fresh state to -1, with what it sees
    // after every call.
    method ParseAll(argv: array<string>, options: string, long: Option<seq<LongOption>>, permute: bool,
        longOnly: bool, posixlyCorrect: bool) returns (events: seq<(int, Option<string>)>, shown: seq<Shown>)
      requires NoSentinel(Configure(options, long, permute, longOnly, posixlyCorrect))
      requires 0 < FirstIndex() <= argv.Length
      requires optreset || optind == 0 || (place == "" && nonoptStart == -1 && nonoptEnd == -1)
      modifies this, argv
      ensures var cfg := Configure(options, long, permute, longOnly, posixlyCorrect);
        var total := Scan(cfg, old(argv[..]), old(FirstIndex()), "");
        && events == Pairs(total.events) && Finished(argv, old(FirstIndex()), old(argv[..]), total)
        && Traces(shown, old(Shows()), total.events) && Shows() == ShownAfter(old(Shows()), total.events)
    {
      hide Scan, NextStep, ParseOption, ParseShort, ParseLong, Resolve, Resolves, Pairs, ShownAfter, Traces;
      ghost var cfg := Configure(options, long, permute, longOnly, posixlyCorrect);
      ghost var orig, first, done, v := argv[..], FirstIndex(), [], Shows();
      events, shown := [], [];
      PairsOfNone();
      ShownAtFirst(v);
      if !optreset && optind != 0 {
        Start(argv, cfg);
      }
      ghost var ev;
      var r;
      r, ev := Call(argv, options, long, permute, longOnly, posixlyCorrect, orig, first, done, v);
      while r != -1
        invariant Answered(argv, cfg, orig, first, done, r, ev) && events == Pairs(done)
        invariant r != -1 ==> optarg == ev.arg && optind > 0
        invariant Shows() == ShownAfter(v, if r == -1 then done else done + [ev])
        invariant Traces(shown, v, done)
        decreases if r == -1 then 0 else 1, argv.Length - optind, LettersLeft(words, optind, place)
      {
        PairsOfMore(done, ev);
        events := events + [(r, optarg)];
        TracesMore(shown, v, done, ev);
        shown := shown + [Shown(optopt, longIndex, stored)];
        done := done + [ev];
        r, ev := Call(argv, options, long, permute, longOnly, posixlyCorrect, orig, first, done, v);
      }
    }

    // A run, then optreset and a second run on the words the first one left.
    method ParseTwice(argv: array<string>, options: string, long: Option<seq<LongOption>>, permute: bool,
        longOnly: bool, posixlyCorrect: bool)
        returns (a: seq<(int, Option<string>)>, b: seq<(int, Option<string>)>, same: bool)
      requires NoSentinel(Configure(options, long, permute, longOnly, posixlyCorrect))
      requires 0 < FirstIndex() <= argv.Length
      requires optreset || optind == 0 || (place == "" && nonoptStart == -1 && nonoptEnd == -1)
      modifies this, argv
      ensures var cfg := Configure(options, long, permute, longOnly, posixlyCorrect);
        var total := Scan(cfg, old(argv[..]), old(FirstIndex()), "");
        a == Pairs(total.events) &&
        ((a == b && same) <==> !(total.missing && total.nonopts != []))
    {
      hide Scan, NextStep, ParseOption, ParseShort, ParseLong, Resolve, Resolves;
      ghost var cfg, w := Configure(options, long, permute, longOnly, posixlyCorrect), argv[..];
      var first := FirstIndex();
      var shown;
      a, shown := ParseAll(argv, options, long, permute, longOnly, posixlyCorrect);
      var middle, end := argv[..], optind;
      optind, optreset := first, true;
      b, shown := ParseAll(argv, options, long, permute, longOnly, posixlyCorrect);
      same := argv[..] == middle && optind == end;
      OptionRerun.RerunTheorem(cfg, w, first);
    }
  }

  // What the caller sees of the events: return value and optarg.
  ghost function Pairs(events: seq<Event>): seq<(int, Option<string>)> {
    seq(|events|, i requires 0 <= i < |events| => (events[i].ret, events[i].arg))
  }
  lemma PairsOfNone()
    ensures Pairs([]) == []
  {
  }

  lemma PairsOfMore(events: seq<Event>, ev: Event)
    ensures Pairs(events + [ev]) == Pairs(events) + [(ev.ret, ev.arg)]
  {
  }

  lemma ShownAtFirst(v: Shown)
    ensures ShownAfter(v, []) == v && Traces([], v, [])
  {
  }

  // What the caller saw after each of the events.
  ghost predicate Traces(shown: seq<Shown>, v: Shown, events: seq<Event>) {
    |shown| == |events| && forall k | 0 <= k < |shown| :: shown[k] == ShownAfter(v, events[..k + 1])
  }

  lemma TracesMore(shown: seq<Shown>, v: Shown, done: seq<Event>, e: Event)
    requires Traces(shown, v, done)
    ensures Traces(shown + [ShownAfter(v, done + [e])], v, done + [e])
  {
    assert forall k | 0 <= k <= |done| :: (done + [e])[..k] == done[..k];
    assert (done + [e])[..|done| + 1] == done + [e];
  }
}
