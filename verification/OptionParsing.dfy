// The meaning of one getopt_long run, read off the argument vector from left to
// right without moving any word.
module OptionParsing {
  import opened Wrappers

  const NO_ARGUMENT := 0
  const REQUIRED_ARGUMENT := 1
  const OPTIONAL_ARGUMENT := 2
  const BADCH: int := '?' as int
  const INORDER := 1

  // flag names the caller's variable to store into, if any.
  datatype LongOption = LongOption(name: string, hasArg: int, flag: Option<nat>, val: int)

  datatype Config = Config(opts: string, long: Option<seq<LongOption>>, permute: bool, allArgs: bool, longOnly: bool)

  // The options string's leading sign and POSIXLY_CORRECT select the mode.
  function Configure(options: string, long: Option<seq<LongOption>>, permute: bool, longOnly: bool,
      posixlyCorrect: bool): Config
  {
    if options != "" && options[0] == '-' then
      Config(options[1..], long, permute, true, longOnly)
    else if options != "" && options[0] == '+' then
      Config(options[1..], long, false, false, longOnly)
    else
      Config(options, long, permute && !posixlyCorrect, false, longOnly)
  }

  // What one call reports. The last three fields say what it stores besides: optopt,
  // the index of the long option, and a value into a caller's variable.
  datatype Event = Event(ret: int, arg: Option<string>, optopt: Option<int>, index: Option<int>, store: Option<(nat,
      int)>)

  // One option parsed: the event, the next word, what is left of the current word,
  // and whether a required argument was missing.
  datatype Step = Step(event: Event, next: nat, place: string, missing: bool)

  // The values that getopt_long uses as its own sentinel are not option values.
  ghost predicate NoSentinel(cfg: Config) {
    cfg.long.Some? ==> forall o | o in cfg.long.value :: o.flag.None? ==> o.val != -1
  }

  // strchr, as an index
  function IndexOf(s: string, c: char): (k: int)
    ensures -1 <= k < |s|
    ensures k >= 0 ==> s[k] == c && c !in s[..k]
    ensures k < 0 ==> c !in s
  {
    if s == "" then -1
    else if s[0] == c then 0
    else
      var k := IndexOf(s[1..], c);
      if k < 0 then -1 else k + 1
  }

  predicate HasAt(s: string, k: int, c: char) {
    0 <= k < |s| && s[k] == c
  }

  function BadArg(opts: string): int {
    if HasAt(opts, 0, ':') then ':' as int else BADCH
  }

  // --- Long option names ---

  datatype Resolution = NoMatch | Ambiguous | Match(index: nat)

  predicate Exact(long: seq<LongOption>, name: string, k: int) {
    0 <= k < |long| && long[k].name == name
  }

  // A known short option is not taken for an abbreviation of a single character.
  predicate Partial(long: seq<LongOption>, name: string, shortToo: bool, k: int) {
    0 <= k < |long| && name < long[k].name && !(shortToo && |name| == 1)
  }

  predicate Clash(a: LongOption, b: LongOption, longOnly: bool) {
    longOnly || a.hasArg != b.hasArg || a.flag != b.flag || a.val != b.val
  }

  // The first exact match wins; otherwise the first partial match does, unless some
  // other partial match clashes with it.
  ghost predicate Resolves(long: seq<LongOption>, name: string, shortToo: bool, longOnly: bool, res: Resolution) {
    if exists k :: Exact(long, name, k) then
      res.Match? && Exact(long, name, res.index) && forall j | 0 <= j < res.index :: !Exact(long, name, j)
    else if exists k :: Partial(long, name, shortToo, k) then
      exists k :: FirstPartial(long, name, shortToo, k) &&
        res == if Contested(long, name, shortToo, longOnly, k) then Ambiguous else Match(k)
    else
      res == NoMatch
  }

  ghost predicate Contested(long: seq<LongOption>, name: string, shortToo: bool, longOnly: bool, k: int)
    requires 0 <= k < |long|
  {
    exists j :: j != k && Partial(long, name, shortToo, j) && Clash(long[j], long[k], longOnly)
  }

  ghost predicate FirstPartial(long: seq<LongOption>, name: string, shortToo: bool, k: int) {
    Partial(long, name, shortToo, k) && forall j | 0 <= j < k :: !Partial(long, name, shortToo, j)
  }

  lemma LeastIndex(p: int -> bool, m: int) returns (k: int)
    requires 0 <= m && p(m)
    ensures 0 <= k <= m && p(k) && forall j | 0 <= j < k :: !p(j)
  {
    k := 0;
    while !p(k)
      invariant 0 <= k <= m && forall j | 0 <= j < k :: !p(j)
      decreases m - k
    {
      k := k + 1;
    }
  }

  ghost function Resolve(long: seq<LongOption>, name: string, shortToo: bool, longOnly: bool): (res: Resolution)
    ensures Resolves(long, name, shortToo, longOnly, res)
  {
    ResolutionExists(long, name, shortToo, longOnly);
    var res :| Resolves(long, name, shortToo, longOnly, res);
    res
  }

  lemma ResolutionExists(long: seq<LongOption>, name: string, shortToo: bool, longOnly: bool)
    ensures exists res :: Resolves(long, name, shortToo, longOnly, res)
  {
    var res := NoMatch;
    if e :| Exact(long, name, e) {
      var p := i => Exact(long, name, i);
      var k := LeastIndex(p, e);
      assert forall j | 0 <= j < k :: !p(j) <==> !Exact(long, name, j);
      res := Match(k);
    } else if e :| Partial(long, name, shortToo, e) {
      var p := i => Partial(long, name, shortToo, i);
      var k := LeastIndex(p, e);
      assert forall j | 0 <= j < k :: !p(j) <==> !Partial(long, name, shortToo, j);
      assert FirstPartial(long, name, shortToo, k);
      res := if Contested(long, name, shortToo, longOnly, k) then Ambiguous else Match(k);
    }
    assert Resolves(long, name, shortToo, longOnly, res);
  }

  lemma ResolutionUnique(long: seq<LongOption>, name: string, shortToo: bool, longOnly: bool, a: Resolution,
      b: Resolution)
    requires Resolves(long, name, shortToo, longOnly, a) && Resolves(long, name, shortToo, longOnly, b)
    ensures a == b
  {
    if exists k :: Exact(long, name, k) {
      assert a.index == b.index;
    } else if exists k :: Partial(long, name, shortToo, k) {
      var k, l :| FirstPartial(long, name, shortToo, k) && FirstPartial(long, name, shortToo, l);
      assert forall i, j | FirstPartial(long, name, shortToo, i) && FirstPartial(long, name, shortToo, j) :: i == j;
    }
  }

  predicate PartialsClash(long: seq<LongOption>, name: string, shortToo: bool, longOnly: bool, i: int, j: int) {
    Partial(long, name, shortToo, i) && Partial(long, name, shortToo, j) && Clash(long[i], long[j], longOnly)
  }

  // An exact match always wins.  A name is ambiguous exactly when it has none and some
  // two partial matches clash, whichever of them comes first in the table.
  lemma AmbiguousMeans(long: seq<LongOption>, name: string, shortToo: bool, longOnly: bool)
    ensures var res := Resolve(long, name, shortToo, longOnly);
      && ((exists k :: Exact(long, name, k)) ==> res.Match? && Exact(long, name, res.index))
      && (res.Ambiguous? <==>
          && !(exists k :: Exact(long, name, k))
          && exists i, j :: i != j && PartialsClash(long, name, shortToo, longOnly, i, j))
  {
    var res := Resolve(long, name, shortToo, longOnly);
    if !(exists k :: Exact(long, name, k)) && exists k :: Partial(long, name, shortToo, k) {
      var k :| FirstPartial(long, name, shortToo, k)
        && res == if Contested(long, name, shortToo, longOnly, k) then Ambiguous else Match(k);
      if i, j :| i != j && PartialsClash(long, name, shortToo, longOnly, i, j) {
        var l := if i != k && Clash(long[i], long[k], longOnly) then i else j;
        assert l != k && Partial(long, name, shortToo, l) && Clash(long[l], long[k], longOnly);
      }
      if j :| j != k && Partial(long, name, shortToo, j) && Clash(long[j], long[k], longOnly) {
        assert PartialsClash(long, name, shortToo, longOnly, j, k);
      }
    }
  }

  // --- One option ---

  // Long option k, given with an argument or not, when word i - 1 has just been taken.
  function UseLong(cfg: Config, w: seq<string>, i: nat, k: nat, given: Option<string>): (r: Step)
    requires cfg.long.Some? && k < |cfg.long.value| && i <= |w|
    ensures i <= r.next <= |w| && r.place == ""
    ensures r.missing ==> i == |w| && r.next == i
    ensures NoSentinel(cfg) ==> r.event.ret != -1
  {
    var o := cfg.long.value[k];
    var shown := if o.flag.None? then o.val else 0;
    if o.hasArg == NO_ARGUMENT && given.Some? then
      Step(Event(BadArg(cfg.opts), None, Some(shown), None, None), i, "", false)
    else
      var takesNext := o.hasArg == REQUIRED_ARGUMENT && given.None?;
      if takesNext && i == |w| then
        Step(Event(BadArg(cfg.opts), None, Some(shown), None, None), i, "", true)
      else
        var arg := if takesNext then Some(w[i])
                   else if o.hasArg == REQUIRED_ARGUMENT || o.hasArg == OPTIONAL_ARGUMENT then given
                   else None;
        var ret := if o.flag.Some? then 0 else o.val;
        var store := if o.flag.Some? then Some((o.flag.value, o.val)) else None;
        Step(Event(ret, arg, None, Some(k), store), if takesNext then i + 1 else i, "", false)
  }

  // The long option written at key, the text after its dashes, when word i - 1 has
  // just been taken. None means that it may still be a short option.
  ghost function ParseLong(cfg: Config, w: seq<string>, i: nat, key: string, shortToo: bool): (r: Option<Step>)
    requires cfg.long.Some? && 0 < i <= |w|
    ensures r.None? ==> shortToo
    ensures r.Some? ==> i <= r.value.next <= |w| && r.value.place == ""
    ensures r.Some? && r.value.missing ==> i == |w| && r.value.next == i
    ensures r.Some? && NoSentinel(cfg) ==> r.value.event.ret != -1
  {
    var eq := IndexOf(key, '=');
    var name := if eq < 0 then key else key[..eq];
    var given := if eq < 0 then None else Some(key[eq + 1..]);
    match Resolve(cfg.long.value, name, shortToo, cfg.longOnly)
    case Ambiguous => Some(Step(Event(BADCH, None, Some(0), None, None), i, "", false))
    case NoMatch =>
      if shortToo then None
      else Some(Step(Event(BADCH, None, Some(0), None, None), i, "", false))
    case Match(k) => Some(UseLong(cfg, w, i, k, given))
  }

  // The letter c, known at index p of the options string, at the front of word i's rest.
  function UseShort(cfg: Config, w: seq<string>, i: nat, c: char, rest: string, p: nat): (r: Step)
    requires i < |w|
    ensures i <= r.next <= |w| && (r.place == "" ==> i < r.next) && (r.place != "" ==> r.next == i)
    ensures r.place != "" ==> r.place == rest
    ensures r.missing ==> r.next == |w| && r.place == ""
    ensures r.event.ret != -1
  {
    if !HasAt(cfg.opts, p + 1, ':') then
      Step(Event(c as int, None, None, None, None), if rest == "" then i + 1 else i, rest, false)
    else if rest != "" then
      Step(Event(c as int, Some(rest), None, None, None), i + 1, "", false)
    else if HasAt(cfg.opts, p + 2, ':') then
      Step(Event(c as int, None, None, None, None), i + 1, "", false)
    else if i + 1 == |w| then
      Step(Event(BadArg(cfg.opts), None, Some(c as int), None, None), i + 1, "", true)
    else
      Step(Event(c as int, Some(w[i + 1]), None, None, None), i + 2, "", false)
  }

  // The option letter at the front of place, inside word i.
  ghost function ParseShort(cfg: Config, w: seq<string>, i: nat, place: string): (r: Step)
    requires i < |w| && place != ""
    ensures i <= r.next <= |w| && (r.place == "" ==> i < r.next) && (r.place != "" ==> r.next == i)
    ensures r.place != "" ==> r.place == place[1..]
    ensures r.missing ==> r.next == |w| && r.place == ""
    ensures NoSentinel(cfg) ==> r.event.ret != -1
  {
    var c := place[0];
    var rest := place[1..];
    var p := IndexOf(cfg.opts, c);
    if c == ':' || p < 0 then
      Step(Event(BADCH, None, Some(c as int), None, None), if rest == "" then i + 1 else i, rest, false)
    else if cfg.long.Some? && c == 'W' && HasAt(cfg.opts, p + 1, ';') then
      if rest != "" then ParseLong(cfg, w, i + 1, rest, false).value
      else if i + 1 == |w| then Step(Event(BadArg(cfg.opts), None, Some(c as int), None, None), i + 1, "", true)
      else ParseLong(cfg, w, i + 2, w[i + 1], false).value
    else
      UseShort(cfg, w, i, c, rest, p)
  }

  // The option at place inside word i; moved tells whether place is past the start
  // of the word.
  ghost function ParseOption(cfg: Config, w: seq<string>, i: nat, place: string, moved: bool): (r: Step)
    requires i < |w| && place != ""
    ensures i <= r.next <= |w| && (r.place == "" ==> i < r.next) && (r.place != "" ==> r.next == i)
    ensures r.place != "" ==> r.place == place[1..]
    ensures r.missing ==> r.next == |w| && r.place == ""
    ensures NoSentinel(cfg) ==> r.event.ret != -1
  {
    if cfg.long.Some? && moved && (place[0] == '-' || cfg.longOnly) then
      var r :=
        if place[0] == '-' then ParseLong(cfg, w, i + 1, place[1..], false)
        else ParseLong(cfg, w, i + 1, place, place[0] != ':' && place[0] in cfg.opts);
      match r
      case Some(step) => step
      case None => ParseShort(cfg, w, i, place)
    else
      ParseShort(cfg, w, i, place)
  }

  lemma SameTailLong(cfg: Config, w: seq<string>, v: seq<string>, i: nat, key: string, shortToo: bool)
    requires cfg.long.Some? && 0 < i <= |w| == |v| && (i < |w| ==> w[i] == v[i])
    ensures ParseLong(cfg, w, i, key, shortToo) == ParseLong(cfg, v, i, key, shortToo)
  {
    hide Resolve, Resolves;
  }

  lemma SameTailShort(cfg: Config, w: seq<string>, v: seq<string>, i: nat, place: string)
    requires i < |w| == |v| && place != "" && forall k | i <= k < |w| :: w[k] == v[k]
    ensures ParseShort(cfg, w, i, place) == ParseShort(cfg, v, i, place)
  {
    hide ParseLong, Resolve, Resolves;
    if cfg.long.Some? {
      SameTailLong(cfg, w, v, i + 1, place[1..], false);
      if i + 1 < |w| {
        SameTailLong(cfg, w, v, i + 2, w[i + 1], false);
      }
    }
  }

  // An option depends on the words from its own on.
  lemma SameTail(cfg: Config, w: seq<string>, v: seq<string>, i: nat, place: string, moved: bool)
    requires i < |w| == |v| && w[i..] == v[i..] && place != ""
    ensures ParseOption(cfg, w, i, place, moved) == ParseOption(cfg, v, i, place, moved)
  {
    hide ParseShort, ParseLong, Resolve, Resolves;
    forall k | i <= k < |w|
      ensures w[k] == v[k]
    {
      assert w[i..][k - i] == v[i..][k - i];
    }
    SameTailShort(cfg, w, v, i, place);
    if cfg.long.Some? {
      SameTailLong(cfg, w, v, i + 1, place[1..], false);
      SameTailLong(cfg, w, v, i + 1, place, place[0] != ':' && place[0] in cfg.opts);
    }
  }

  // --- A whole run ---

  predicate IsNonOption(cfg: Config, word: string) {
    !HasAt(word, 0, '-') || (word == "-" && '-' !in cfg.opts)
  }

  // Where the option letters of an option word start; a lone dash is one itself.
  function Letters(word: string): string {
    if |word| > 1 then word[1..] else word
  }

  // The events of a run, the words it took as options (with their arguments, and a
  // final "--"), the non-options it skipped, the index it stopped at, whether that
  // was because of "--", and whether a required argument was missing.
  datatype Run = Run(events: seq<Event>, opts: seq<string>, nonopts: seq<string>, stop: nat, dashes: bool,
      missing: bool)

  // Characters of the current word that are still to be read.
  function LettersLeft(w: seq<string>, i: nat, place: string): nat {
    if place != "" then |place| else if i < |w| then |w[i]| + 1 else 0
  }

  ghost predicate AtOption(cfg: Config, w: seq<string>, i: nat, place: string) {
    i < |w| && (place != "" || (!IsNonOption(cfg, w[i]) && w[i] != "--"))
  }

  ghost function NextStep(cfg: Config, w: seq<string>, i: nat, place: string): (r: Step)
    requires AtOption(cfg, w, i, place)
    ensures i <= r.next <= |w| && (r.place == "" ==> i < r.next) && (r.place != "" ==> r.next == i)
    ensures |r.place| < LettersLeft(w, i, place)
    ensures r.missing ==> r.next == |w| && r.place == ""
    ensures NoSentinel(cfg) ==> r.event.ret != -1
  {
    if place != "" then ParseOption(cfg, w, i, place, true)
    else ParseOption(cfg, w, i, Letters(w[i]), |w[i]| > 1)
  }

  function Prepend(step: Step, taken: seq<string>, rest: Run): Run {
    rest.(events := [step.event] + rest.events, opts := taken + rest.opts, missing := step.missing || rest.missing)
  }

  // A left-to-right reading of w from word i, where place is what is left of word i
  // if its letters have been started on.
  ghost function Scan(cfg: Config, w: seq<string>, i: nat, place: string): (r: Run)
    requires i <= |w| && (place != "" ==> i < |w|)
    ensures i <= r.stop <= |w|
    decreases |w| - i, LettersLeft(w, i, place)
  {
    if AtOption(cfg, w, i, place) then
      var step := NextStep(cfg, w, i, place);
      var rest := Scan(cfg, w, step.next, step.place);
      Prepend(step, w[i..step.next], rest)
    else if i == |w| then
      Run([], [], [], i, false, false)
    else if w[i] == "--" then
      Run([], ["--"], [], i + 1, true, false)
    else if cfg.allArgs then
      var rest := Scan(cfg, w, i + 1, "");
      rest.(events := [Event(INORDER, Some(w[i]), None, None, None)] + rest.events, opts := [w[i]] + rest.opts)
    else if !cfg.permute then
      Run([], [], [], i, false, false)
    else
      var rest := Scan(cfg, w, i + 1, "");
      rest.(nonopts := [w[i]] + rest.nonopts)
  }

  lemma ScanOption(cfg: Config, w: seq<string>, i: nat, place: string)
    requires i <= |w| && AtOption(cfg, w, i, place)
    ensures var s := NextStep(cfg, w, i, place);
      Scan(cfg, w, i, place) == Prepend(s, w[i..s.next], Scan(cfg, w, s.next, s.place))
  {
  }

  // What is left of the run total after done has been reported and the words taken
  // and skipped have been passed.
  ghost predicate Remains(total: Run, done: seq<Event>, taken: seq<string>, skipped: seq<string>, rest: Run) {
    && total.events == done + rest.events
    && total.opts == taken + rest.opts && total.nonopts == skipped + rest.nonopts
    && total.stop == rest.stop
  }

  lemma RemainsAfterSkip(cfg: Config, w: seq<string>, i: nat, total: Run, done: seq<Event>, taken: seq<string>,
      skipped: seq<string>)
    requires i < |w| && IsNonOption(cfg, w[i]) && cfg.permute && !cfg.allArgs
    requires Remains(total, done, taken, skipped, Scan(cfg, w, i, ""))
    ensures Remains(total, done, taken, skipped + [w[i]], Scan(cfg, w, i + 1, ""))
  {
    var rest := Scan(cfg, w, i + 1, "");
    assert skipped + ([w[i]] + rest.nonopts) == skipped + [w[i]] + rest.nonopts;
  }

  lemma RemainsAfterOption(cfg: Config, w: seq<string>, i: nat, place: string, total: Run, done: seq<Event>,
      taken: seq<string>, skipped: seq<string>)
    requires i <= |w| && AtOption(cfg, w, i, place)
    requires Remains(total, done, taken, skipped, Scan(cfg, w, i, place))
    ensures var s := NextStep(cfg, w, i, place);
      Remains(total, done + [s.event], taken + w[i..s.next], skipped, Scan(cfg, w, s.next, s.place))
  {
    hide Scan, NextStep, ParseOption, ParseShort, ParseLong, Resolve, Resolves;
    ScanOption(cfg, w, i, place);
    var s := NextStep(cfg, w, i, place);
    var rest := Scan(cfg, w, s.next, s.place);
    assert done + ([s.event] + rest.events) == done + [s.event] + rest.events;
    assert taken + (w[i..s.next] + rest.opts) == taken + w[i..s.next] + rest.opts;
  }

  lemma RemainsAfterInOrder(cfg: Config, w: seq<string>, i: nat, total: Run, done: seq<Event>, taken: seq<string>,
      skipped: seq<string>)
    requires i < |w| && IsNonOption(cfg, w[i]) && cfg.allArgs
    requires Remains(total, done, taken, skipped, Scan(cfg, w, i, ""))
    ensures var e := Event(INORDER, Some(w[i]), None, None, None);
      Remains(total, done + [e], taken + [w[i]], skipped, Scan(cfg, w, i + 1, ""))
  {
    var rest, e := Scan(cfg, w, i + 1, ""), Event(INORDER, Some(w[i]), None, None, None);
    assert done + ([e] + rest.events) == done + [e] + rest.events;
    assert taken + ([w[i]] + rest.opts) == taken + [w[i]] + rest.opts;
  }

  lemma RemainsAtEnd(cfg: Config, w: seq<string>, i: nat, total: Run, done: seq<Event>, taken: seq<string>,
      skipped: seq<string>)
    requires i <= |w| && Remains(total, done, taken, skipped, Scan(cfg, w, i, ""))
    requires i == |w| || w[i] == "--" || (IsNonOption(cfg, w[i]) && !cfg.allArgs && !cfg.permute)
    ensures total.events == done && total.nonopts == skipped
    ensures i < |w| && w[i] == "--" ==> total.opts == taken + ["--"] && total.stop == i + 1
    ensures i == |w| || w[i] != "--" ==> total.opts == taken && total.stop == i
  {
  }

  // An option word is the first one that a run takes.
  lemma {:induction false} OptionsComeFirst(cfg: Config, w: seq<string>, i: nat, place: string)
    requires AtOption(cfg, w, i, place)
    ensures var r := Scan(cfg, w, i, place); r.opts != [] && r.opts[0] == w[i]
    decreases LettersLeft(w, i, place)
  {
    var step := NextStep(cfg, w, i, place);
    if step.place != "" {
      OptionsComeFirst(cfg, w, i, step.place);
    }
  }

  // w puts a and b together, keeping the order of each.
  ghost predicate Interleaves(w: seq<string>, a: seq<string>, b: seq<string>) {
    if w == [] then a == [] && b == []
    else
      || (a != [] && a[0] == w[0] && Interleaves(w[1..], a[1..], b))
      || (b != [] && b[0] == w[0] && Interleaves(w[1..], a, b[1..]))
  }

  lemma {:induction false} TakenBefore(t: seq<string>, w: seq<string>, a: seq<string>, b: seq<string>)
    requires Interleaves(w, a, b)
    ensures Interleaves(t + w, t + a, b)
  {
    if t == [] {
      assert t + w == w && t + a == a;
    } else {
      TakenBefore(t[1..], w, a, b);
      assert (t + w)[1..] == t[1..] + w && (t + a)[1..] == t[1..] + a;
    }
  }

  lemma SkippedBefore(x: string, w: seq<string>, a: seq<string>, b: seq<string>)
    requires Interleaves(w, a, b)
    ensures Interleaves([x] + w, a, [x] + b)
  {
    assert ([x] + w)[1..] == w && ([x] + b)[1..] == b;
  }

  lemma {:induction false} InterleavedWords(w: seq<string>, a: seq<string>, b: seq<string>)
    requires Interleaves(w, a, b)
    ensures multiset(w) == multiset(a) + multiset(b)
  {
    if w != [] {
      assert w == [w[0]] + w[1..];
      if a != [] && a[0] == w[0] && Interleaves(w[1..], a[1..], b) {
        assert a == [a[0]] + a[1..];
        InterleavedWords(w[1..], a[1..], b);
      } else {
        assert b == [b[0]] + b[1..];
        InterleavedWords(w[1..], a, b[1..]);
      }
    }
  }

  // The words between the start and the stop are the options and the non-options, each
  // kind in its original order.
  lemma {:induction false} WordsAccounted(cfg: Config, w: seq<string>, i: nat, place: string)
    requires i <= |w| && (place != "" ==> i < |w|)
    ensures var r := Scan(cfg, w, i, place); Interleaves(w[i..r.stop], r.opts, r.nonopts)
    decreases |w| - i, LettersLeft(w, i, place)
  {
    hide NextStep;
    var r := Scan(cfg, w, i, place);
    if AtOption(cfg, w, i, place) {
      var step := NextStep(cfg, w, i, place);
      var rest := Scan(cfg, w, step.next, step.place);
      WordsAccounted(cfg, w, step.next, step.place);
      SplitWords(w, i, step.next, r.stop);
      TakenBefore(w[i..step.next], w[step.next..r.stop], rest.opts, rest.nonopts);
    } else if i < |w| && w[i] == "--" {
      assert w[i..i + 1] == ["--"];
      TakenBefore(["--"], [], [], []);
    } else if i < |w| && (cfg.allArgs || cfg.permute) {
      var rest := Scan(cfg, w, i + 1, "");
      WordsAccounted(cfg, w, i + 1, "");
      SplitWords(w, i, i + 1, r.stop);
      assert w[i..i + 1] == [w[i]];
      if cfg.allArgs {
        TakenBefore([w[i]], w[i + 1..r.stop], rest.opts, rest.nonopts);
      } else {
        SkippedBefore(w[i], w[i + 1..r.stop], rest.opts, rest.nonopts);
      }
    }
  }

  lemma SplitWords(w: seq<string>, i: int, k: int, j: int)
    requires 0 <= i <= k <= j <= |w|
    ensures w[i..j] == w[i..k] + w[k..j]
  {
  }

  // How a run ends, and in which modes nothing is skipped.
  lemma {:induction false} RunEnds(cfg: Config, w: seq<string>, i: nat, place: string)
    requires i <= |w| && (place != "" ==> i < |w|)
    ensures var r := Scan(cfg, w, i, place);
      && (forall x | x in r.nonopts :: IsNonOption(cfg, x))
      && (cfg.permute && !r.dashes ==> r.stop == |w|)
      && (r.missing ==> r.stop == |w| && !r.dashes)
    decreases |w| - i, LettersLeft(w, i, place)
  {
    if AtOption(cfg, w, i, place) {
      var step := NextStep(cfg, w, i, place);
      RunEnds(cfg, w, step.next, step.place);
    } else if i < |w| && w[i] != "--" && (cfg.allArgs || cfg.permute) {
      RunEnds(cfg, w, i + 1, "");
    }
  }

  lemma {:induction false} NothingSkipped(cfg: Config, w: seq<string>, i: nat, place: string)
    requires i <= |w| && (place != "" ==> i < |w|)
    requires !cfg.permute || cfg.allArgs
    ensures var r := Scan(cfg, w, i, place); r.nonopts == [] && r.opts == w[i..r.stop]
    decreases |w| - i, LettersLeft(w, i, place)
  {
    var r := Scan(cfg, w, i, place);
    if AtOption(cfg, w, i, place) {
      var step := NextStep(cfg, w, i, place);
      NothingSkipped(cfg, w, step.next, step.place);
      SplitWords(w, i, step.next, r.stop);
    } else if i < |w| && w[i] == "--" {
      assert w[i..i + 1] == ["--"];
    } else if i < |w| && cfg.allArgs {
      NothingSkipped(cfg, w, i + 1, "");
      SplitWords(w, i, i + 1, r.stop);
      assert w[i..i + 1] == [w[i]];
    }
  }
}
