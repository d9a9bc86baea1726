// Running the parser again on the argument vector that a finished run leaves.
module OptionRerun {
  import opened Wrappers
  import opened OptionParsing

  lemma ParseLongTransfer(cfg: Config, w: seq<string>, i: nat, v: seq<string>, p: nat, key: string, shortToo: bool)
    requires cfg.long.Some? && 0 < i <= |w| && 0 < p <= |v|
    requires var r := ParseLong(cfg, w, i, key, shortToo); r.Some? ==>
      !r.value.missing && p + (r.value.next - i) <= |v| && (r.value.next > i ==> v[p] == w[i])
    ensures ParseLong(cfg, v, p, key, shortToo) ==
      match ParseLong(cfg, w, i, key, shortToo)
      case None => None
      case Some(s) => Some(s.(next := p + (s.next - i)))
  {
  }

  lemma ParseShortTransfer(cfg: Config, w: seq<string>, i: nat, v: seq<string>, p: nat, place: string)
    requires i < |w| && p < |v| && place != ""
    requires var s := ParseShort(cfg, w, i, place); !s.missing && p + (s.next - i) <= |v|
    requires var s := ParseShort(cfg, w, i, place); v[p..p + (s.next - i)] == w[i..s.next]
    ensures var s := ParseShort(cfg, w, i, place); ParseShort(cfg, v, p, place) == s.(next := p + (s.next - i))
  {
    hide ParseLong, Resolve, Resolves;
    var s := ParseShort(cfg, w, i, place);
    assert forall k | 0 <= k < s.next - i :: v[p + k] == v[p..p + (s.next - i)][k] == w[i..s.next][k] == w[i + k];
    var rest := place[1..];
    var k := IndexOf(cfg.opts, place[0]);
    if place[0] != ':' && k >= 0 && cfg.long.Some? && place[0] == 'W' && HasAt(cfg.opts, k + 1, ';') {
      if rest != "" {
        ParseLongTransfer(cfg, w, i + 1, v, p + 1, rest, false);
      } else if i + 1 < |w| {
        ParseLongTransfer(cfg, w, i + 2, v, p + 2, w[i + 1], false);
      }
    }
  }

  // An option reads its own words only.
  lemma StepTransfer(cfg: Config, w: seq<string>, i: nat, v: seq<string>, p: nat, place: string, moved: bool)
    requires i < |w| && p < |v| && place != ""
    requires var s := ParseOption(cfg, w, i, place, moved);
      !s.missing && p + (s.next - i) <= |v| && v[p..p + (s.next - i)] == w[i..s.next]
    ensures var s := ParseOption(cfg, w, i, place, moved);
      ParseOption(cfg, v, p, place, moved) == s.(next := p + (s.next - i))
  {
    hide ParseShort, ParseLong, Resolve, Resolves;
    var s := ParseOption(cfg, w, i, place, moved);
    assert forall k | 0 <= k < s.next - i :: v[p + k] == v[p..p + (s.next - i)][k] == w[i..s.next][k] == w[i + k];
    if cfg.long.Some? && moved && (place[0] == '-' || cfg.longOnly) {
      var short := place[0] != '-' && place[0] != ':' && place[0] in cfg.opts;
      var key := if place[0] == '-' then place[1..] else place;
      ParseLongTransfer(cfg, w, i + 1, v, p + 1, key, short);
      if ParseLong(cfg, w, i + 1, key, short).None? {
        ParseShortTransfer(cfg, w, i, v, p, place);
      }
    } else {
      ParseShortTransfer(cfg, w, i, v, p, place);
    }
  }

  ghost predicate SameWords(w: seq<string>, i: nat, v: seq<string>, p: nat, n: nat) {
    i + n <= |w| && p + n <= |v| && v[p..p + n] == w[i..i + n]
  }

  lemma SameWord(w: seq<string>, i: nat, v: seq<string>, p: nat, n: nat, k: nat)
    requires SameWords(w, i, v, p, n) && k < n
    ensures v[p + k] == w[i + k]
  {
    assert v[p..p + n][k] == w[i..i + n][k];
  }

  lemma NextStepTransfer(cfg: Config, w: seq<string>, i: nat, v: seq<string>, p: nat, place: string)
    requires AtOption(cfg, w, i, place) && p < |v| && v[p] == w[i]
    requires var s := NextStep(cfg, w, i, place); !s.missing && SameWords(w, i, v, p, s.next - i)
    ensures AtOption(cfg, v, p, place)
    ensures var s := NextStep(cfg, w, i, place); NextStep(cfg, v, p, place) == s.(next := p + (s.next - i))
  {
    var s := NextStep(cfg, w, i, place);
    if place != "" {
      StepTransfer(cfg, w, i, v, p, place, true);
    } else {
      StepTransfer(cfg, w, i, v, p, Letters(w[i]), |w[i]| > 1);
    }
  }

  lemma MissingInShort(cfg: Config, w: seq<string>, i: nat, v: seq<string>, p: nat, place: string)
    requires i < |w| && p < |v| && place != ""
    requires var s := ParseShort(cfg, w, i, place);
      s.missing && p + (s.next - i) < |v| && SameWords(w, i, v, p, s.next - i)
    ensures ParseShort(cfg, v, p, place).next > p + (ParseShort(cfg, w, i, place).next - i)
  {
    var s := ParseShort(cfg, w, i, place);
    if i + 1 < s.next {
      SameWord(w, i, v, p, s.next - i, 1);
    }
  }

  lemma MissingInOption(cfg: Config, w: seq<string>, i: nat, v: seq<string>, p: nat, place: string, moved: bool)
    requires i < |w| && p < |v| && place != ""
    requires var s := ParseOption(cfg, w, i, place, moved);
      s.missing && p + (s.next - i) < |v| && SameWords(w, i, v, p, s.next - i)
    ensures ParseOption(cfg, v, p, place, moved).next > p + (ParseOption(cfg, w, i, place, moved).next - i)
  {
    if cfg.long.Some? && moved && (place[0] == '-' || cfg.longOnly) {
      var short := place[0] != '-' && place[0] != ':' && place[0] in cfg.opts;
      var key := if place[0] == '-' then place[1..] else place;
      if ParseLong(cfg, w, i + 1, key, short).None? {
        MissingInShort(cfg, w, i, v, p, place);
      }
    } else {
      MissingInShort(cfg, w, i, v, p, place);
    }
  }

  // A required argument that was missing is found as soon as any word follows.
  lemma MissingIsFound(cfg: Config, w: seq<string>, i: nat, v: seq<string>, p: nat, place: string)
    requires AtOption(cfg, w, i, place) && p < |v| && v[p] == w[i]
    requires var s := NextStep(cfg, w, i, place);
      s.missing && p + (s.next - i) < |v| && SameWords(w, i, v, p, s.next - i)
    ensures AtOption(cfg, v, p, place)
    ensures NextStep(cfg, v, p, place).next > p + (NextStep(cfg, w, i, place).next - i)
  {
    if place == "" {
      MissingInOption(cfg, w, i, v, p, Letters(w[i]), |w[i]| > 1);
    } else {
      MissingInOption(cfg, w, i, v, p, place, true);
    }
  }

  lemma {:induction false} AllSkipped(cfg: Config, v: seq<string>, p: nat)
    requires p <= |v| && cfg.permute && !cfg.allArgs && forall x | x in v[p..] :: IsNonOption(cfg, x)
    ensures Scan(cfg, v, p, "") == Run([], [], v[p..], |v|, false, false)
    decreases |v| - p
  {
    if p == |v| {
      assert v[p..] == [];
    } else {
      assert v[p] == v[p..][0] && IsNonOption(cfg, v[p]);
      assert v[p..] == [v[p]] + v[p + 1..];
      AllSkipped(cfg, v, p + 1);
    }
  }

  // The outcome of scanning the option words of r, found at index p, before back.
  ghost predicate Alone(r: Run, v: seq<string>, p: nat, back: seq<string>, r': Run) {
    r' == if r.dashes then Run(r.events, r.opts, [], p + |r.opts|, true, false)
          else Run(r.events, r.opts, back, |v|, false, false)
  }

  lemma AlonePrepended(step: Step, step': Step, taken: seq<string>, rest: Run, rest': Run, v: seq<string>, p: nat,
      p': nat, back: seq<string>)
    requires Alone(rest, v, p', back, rest') && p' == p + |taken| && !rest.missing
    requires step'.event == step.event && !step.missing && !step'.missing
    ensures Alone(Prepend(step, taken, rest), v, p, back, Prepend(step', taken, rest'))
  {
    var r, r' := Prepend(step, taken, rest), Prepend(step', taken, rest');
    assert |r.opts| == |taken| + |rest.opts|;
    assert r.events == r'.events && r.opts == r'.opts && r.dashes == r'.dashes == rest.dashes;
    assert !r'.missing;
    assert r.dashes ==> r'.stop == p + |r.opts| && r'.nonopts == [];
    assert !r.dashes ==> r'.stop == |v| && r'.nonopts == back;
  }

  lemma ScanAtEnd(cfg: Config, w: seq<string>)
    ensures Scan(cfg, w, |w|, "") == Run([], [], [], |w|, false, false)
  {
  }

  lemma OptionCase(cfg: Config, w: seq<string>, i: nat, place: string, v: seq<string>, p: nat, p': nat,
      back: seq<string>)
    requires i <= |w| && AtOption(cfg, w, i, place) && p < |v| && v[p] == w[i] && !Scan(cfg, w, i, place).missing
    requires var s := NextStep(cfg, w, i, place);
      && p' == p + (s.next - i) && SameWords(w, i, v, p, s.next - i)
      && (s.place != "" ==> p' < |v|)
      && Alone(Scan(cfg, w, s.next, s.place), v, p', back, Scan(cfg, v, p', s.place))
    ensures Alone(Scan(cfg, w, i, place), v, p, back, Scan(cfg, v, p, place))
  {
    hide Scan, NextStep, ParseOption, ParseShort, ParseLong, Resolve, Resolves;
    ScanOption(cfg, w, i, place);
    NextStepTransfer(cfg, w, i, v, p, place);
    ScanOption(cfg, v, p, place);
    var s, s' := NextStep(cfg, w, i, place), NextStep(cfg, v, p, place);
    assert v[p..p'] == w[i..s.next];
    AlonePrepended(s, s', w[i..s.next], Scan(cfg, w, s.next, s.place), Scan(cfg, v, p', s.place), v, p, p', back);
  }

  lemma TailSplit(v: seq<string>, p: nat, taken: seq<string>, more: seq<string>)
    requires p <= |v| && v[p..] == taken + more
    ensures p + |taken| <= |v| && v[p..p + |taken|] == taken && v[p + |taken|..] == more
  {
    assert v[p..p + |taken|] == v[p..][..|taken|];
    assert v[p + |taken|..] == v[p..][|taken|..];
  }

  lemma OptionWords(cfg: Config, w: seq<string>, i: nat, place: string, v: seq<string>, p: nat, back: seq<string>)
    requires i <= |w| && AtOption(cfg, w, i, place) && p <= |v| && v[p..] == Scan(cfg, w, i, place).opts + back
    ensures p < |v| && v[p] == w[i]
    ensures var s := NextStep(cfg, w, i, place);
      && SameWords(w, i, v, p, s.next - i)
      && v[p + (s.next - i)..] == Scan(cfg, w, s.next, s.place).opts + back
  {
    hide NextStep, ParseOption, ParseShort, ParseLong, Resolve, Resolves;
    var s := NextStep(cfg, w, i, place);
    var rest, taken := Scan(cfg, w, s.next, s.place), w[i..s.next];
    ScanOption(cfg, w, i, place);
    OptionsComeFirst(cfg, w, i, place);
    assert v[p] == v[p..][0];
    assert v[p..] == taken + (rest.opts + back);
    TailSplit(v, p, taken, rest.opts + back);
  }

  // The option words of a run, followed by words that are not options, scan to the
  // same events. This is the run's remainder from (i, place) on, found at index p.
  lemma {:induction false} OptionsScanAlone(cfg: Config, w: seq<string>, i: nat, place: string, v: seq<string>,
      p: nat, back: seq<string>)
    requires i <= |w| && (place != "" ==> i < |w|) && cfg.permute && !cfg.allArgs
    requires var r := Scan(cfg, w, i, place);
      && !r.missing && (r.dashes || forall x | x in back :: IsNonOption(cfg, x))
      && p <= |v| && v[p..] == r.opts + back
    ensures (place != "" ==> p < |v|) && Alone(Scan(cfg, w, i, place), v, p, back, Scan(cfg, v, p, place))
    decreases |w| - i, LettersLeft(w, i, place)
  {
    if AtOption(cfg, w, i, place) {
      var step := NextStep(cfg, w, i, place);
      var p' := p + (step.next - i);
      ScanOption(cfg, w, i, place);
      OptionWords(cfg, w, i, place, v, p, back);
      OptionsScanAlone(cfg, w, step.next, step.place, v, p', back);
      OptionCase(cfg, w, i, place, v, p, p', back);
    } else if i == |w| {
      assert v[p..] == back;
      AllSkipped(cfg, v, p);
    } else if w[i] == "--" {
      TailSplit(v, p, ["--"], back);
      assert v[p] == v[p..p + 1][0];
    } else {
      OptionsScanAlone(cfg, w, i + 1, "", v, p, back);
    }
  }

  lemma MoreOptions(cfg: Config, w: seq<string>, i: nat, place: string, v: seq<string>, p: nat, p': nat)
    requires i <= |w| && AtOption(cfg, w, i, place) && p < |v| && v[p] == w[i]
    requires var s := NextStep(cfg, w, i, place);
      && p' == p + (s.next - i) && SameWords(w, i, v, p, s.next - i) && p' < |v|
      && (!s.missing ==> |Scan(cfg, v, p', s.place).opts| > |Scan(cfg, w, s.next, s.place).opts|)
    ensures |Scan(cfg, v, p, place).opts| > |Scan(cfg, w, i, place).opts|
  {
    hide Scan, NextStep, ParseOption, ParseShort, ParseLong, Resolve, Resolves;
    var s := NextStep(cfg, w, i, place);
    ScanOption(cfg, w, i, place);
    if s.missing {
      ScanAtEnd(cfg, w);
      MissingIsFound(cfg, w, i, v, p, place);
    } else {
      NextStepTransfer(cfg, w, i, v, p, place);
    }
    ScanOption(cfg, v, p, place);
  }

  // With a missing argument, the first word put after the option words is taken for it.
  lemma {:induction false} MissingTakesMore(cfg: Config, w: seq<string>, i: nat, place: string, v: seq<string>,
      p: nat, back: seq<string>)
    requires i <= |w| && (place != "" ==> i < |w|) && cfg.permute && !cfg.allArgs
    requires var r := Scan(cfg, w, i, place); r.missing && back != [] && p <= |v| && v[p..] == r.opts + back
    ensures (place != "" ==> p < |v|) && |Scan(cfg, v, p, place).opts| > |Scan(cfg, w, i, place).opts|
    decreases |w| - i, LettersLeft(w, i, place)
  {
    if AtOption(cfg, w, i, place) {
      var step := NextStep(cfg, w, i, place);
      var p' := p + (step.next - i);
      ScanOption(cfg, w, i, place);
      OptionWords(cfg, w, i, place, v, p, back);
      assert |v[p'..]| > 0;
      if !step.missing {
        MissingTakesMore(cfg, w, step.next, step.place, v, p', back);
      }
      MoreOptions(cfg, w, i, place, v, p, p');
    } else {
      MissingTakesMore(cfg, w, i + 1, "", v, p, back);
    }
  }

  // The argument vector that a finished run from word i leaves, and its final optind.
  ghost function Left(cfg: Config, w: seq<string>, i: nat): (v: seq<string>)
    requires i <= |w|
  {
    var r := Scan(cfg, w, i, "");
    w[..i] + r.opts + r.nonopts + w[r.stop..]
  }

  ghost function FinalIndex(cfg: Config, w: seq<string>, i: nat): nat
    requires i <= |w|
  {
    i + |Scan(cfg, w, i, "").opts|
  }

  ghost predicate RerunAgrees(cfg: Config, w: seq<string>, i: nat)
    requires i <= |w|
  {
    var v := Left(cfg, w, i);
    && i <= |v|
    && Scan(cfg, v, i, "").events == Scan(cfg, w, i, "").events
    && Left(cfg, v, i) == v
    && FinalIndex(cfg, v, i) == FinalIndex(cfg, w, i)
  }

  // A second run reports the same and moves nothing, exactly unless the first one
  // missed an argument while non-options were skipped.
  lemma RerunTheorem(cfg: Config, w: seq<string>, i: nat)
    requires i <= |w|
    ensures RerunAgrees(cfg, w, i) <==> !(Scan(cfg, w, i, "").missing && Scan(cfg, w, i, "").nonopts != [])
    ensures !RerunAgrees(cfg, w, i) ==> FinalIndex(cfg, Left(cfg, w, i), i) > FinalIndex(cfg, w, i)
  {
    hide Scan, NextStep, ParseOption, ParseShort, ParseLong, Resolve, Resolves;
    var r := Scan(cfg, w, i, "");
    if r.nonopts == [] {
      WordsInOrder(cfg, w, i, "");
      SameVector(w, i, r.stop);
    } else {
      if !cfg.permute || cfg.allArgs {
        NothingSkipped(cfg, w, i, "");
      }
      RunEnds(cfg, w, i, "");
      RerunPermuted(cfg, w, i);
    }
  }

  lemma SameVector(w: seq<string>, i: nat, k: nat)
    requires i <= k <= |w|
    ensures w[..i] + w[i..k] + [] + w[k..] == w
  {
  }

  lemma RerunPermuted(cfg: Config, w: seq<string>, i: nat)
    requires i <= |w| && cfg.permute && !cfg.allArgs && Scan(cfg, w, i, "").nonopts != []
    ensures RerunAgrees(cfg, w, i) <==> !Scan(cfg, w, i, "").missing
    ensures !RerunAgrees(cfg, w, i) ==> FinalIndex(cfg, Left(cfg, w, i), i) > FinalIndex(cfg, w, i)
  {
    hide Scan, NextStep, ParseOption, ParseShort, ParseLong, Resolve, Resolves;
    var r := Scan(cfg, w, i, "");
    var back := r.nonopts + w[r.stop..];
    var v := Left(cfg, w, i);
    RunEnds(cfg, w, i, "");
    assert v == w[..i] + (r.opts + back);
    assert v[i..] == r.opts + back && v[..i] == w[..i];
    if r.missing {
      MissingTakesMore(cfg, w, i, "", v, i, back);
    } else {
      OptionsScanAlone(cfg, w, i, "", v, i, back);
      TailSplit(v, i, r.opts, back);
      LeftAgain(cfg, w, i, v, back);
    }
  }

  lemma LeftAgain(cfg: Config, w: seq<string>, i: nat, v: seq<string>, back: seq<string>)
    requires i <= |w| && i <= |v| && Alone(Scan(cfg, w, i, ""), v, i, back, Scan(cfg, v, i, ""))
    requires v[i..] == Scan(cfg, w, i, "").opts + back
    ensures Left(cfg, v, i) == v
  {
    hide Scan, NextStep, ParseOption, ParseShort, ParseLong, Resolve, Resolves;
    var r, r' := Scan(cfg, w, i, ""), Scan(cfg, v, i, "");
    TailSplit(v, i, r.opts, back);
    assert v == v[..i] + v[i..];
    assert r'.nonopts + v[r'.stop..] == back;
    assert v[..i] + r'.opts + r'.nonopts + v[r'.stop..] == v[..i] + (r'.opts + (r'.nonopts + v[r'.stop..]));
  }

  lemma {:induction false} WordsInOrder(cfg: Config, w: seq<string>, i: nat, place: string)
    requires i <= |w| && (place != "" ==> i < |w|)
    ensures var r := Scan(cfg, w, i, place); r.nonopts == [] ==> r.opts == w[i..r.stop]
    decreases |w| - i, LettersLeft(w, i, place)
  {
    var r := Scan(cfg, w, i, place);
    if AtOption(cfg, w, i, place) {
      var step := NextStep(cfg, w, i, place);
      WordsInOrder(cfg, w, step.next, step.place);
      SplitWords(w, i, step.next, r.stop);
    } else if i < |w| && w[i] == "--" {
      assert w[i..i + 1] == ["--"];
    } else if i < |w| && cfg.allArgs {
      WordsInOrder(cfg, w, i + 1, "");
      SplitWords(w, i, i + 1, r.stop);
      assert w[i..i + 1] == [w[i]];
    }
  }

  // Such a run: with options "x:", prog a -x first reports the missing argument of x
  // and leaves prog -x a, which then reads a as that argument.
  lemma RerunExample()
    ensures var cfg, w := Config("x:", None, true, false, false), ["prog", "a", "-x"];
      && Scan(cfg, w, 1, "").events == [Event(BADCH, None, Some('x' as int), None, None)]
      && Left(cfg, w, 1) == ["prog", "-x", "a"]
      && Scan(cfg, Left(cfg, w, 1), 1, "").events == [Event('x' as int, Some("a"), None, None, None)]
      && !RerunAgrees(cfg, w, 1)
  {
    var cfg, w := Config("x:", None, true, false, false), ["prog", "a", "-x"];
    assert IndexOf("x:", 'x') == 0;
    assert w[1] == "a" && w[2] == "-x" && Letters("-x") == "x";
    assert NextStep(cfg, w, 2, "") == Step(Event(BADCH, None, Some('x' as int), None, None), 3, "", true);
    assert Scan(cfg, w, 3, "") == Run([], [], [], 3, false, false);
    assert w[2..3] == ["-x"];
    assert Scan(cfg, w, 2, "").opts == ["-x"];
    var v := Left(cfg, w, 1);
    assert v == ["prog", "-x", "a"];
    assert NextStep(cfg, v, 1, "") == Step(Event('x' as int, Some("a"), None, None, None), 3, "", false);
    assert Scan(cfg, v, 3, "") == Run([], [], [], 3, false, false);
  }
}
