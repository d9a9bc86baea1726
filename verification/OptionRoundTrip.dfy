// That getopt_long reads back what was written, and that every command line is written so.
module OptionRoundTrip {
  import opened Wrappers
  import opened OptionParsing
  import opened OptionWriting

  // --- The options string ---

  // The mode in which getopt_long works on such a program.
  ghost predicate Serves(cfg: Config, p: Program) {
    && cfg.opts == LetterString(p) && BadArg(cfg.opts) == Complaint(p)
    && cfg.long == p.long && cfg.longOnly == p.longOnly
    && cfg.allArgs == p.sign.Minus?
    && (!cfg.allArgs ==> cfg.permute == Permutes(p))
  }

  lemma Configured(p: Program)
    requires WellFormed(p)
    ensures Serves(Configure(OptionString(p), p.long, p.permute, p.longOnly, p.posixlyCorrect), p)
  {
    LettersStart(p);
    hide LetterString, ProperDecls, BadArg, Complaint;
    var s, l := OptionString(p), LetterString(p);
    var cfg := Configure(s, p.long, p.permute, p.longOnly, p.posixlyCorrect);
    match p.sign
    case Unsigned =>
      assert s == l;
    case Plus =>
      assert s[0] == '+' && s[1..] == l;
    case Minus =>
      assert s[0] == '-' && s[1..] == l;
  }

  lemma LettersStart(p: Program)
    requires WellFormed(p)
    ensures BadArg(LetterString(p)) == Complaint(p)
    ensures p.sign.Unsigned? && LetterString(p) != "" ==> LetterString(p)[0] != '+' && LetterString(p)[0] != '-'
  {
    MarksStart(p.decls);
    hide Marks;
  }

  lemma MarksStart(ds: seq<Decl>)
    requires ProperDecls(ds)
    ensures if ds == [] then Marks(ds) == "" else Marks(ds) != "" && Marks(ds)[0] == ds[0].letter != ':'
  {
    if ds != [] {
      assert ds[0] in ds;
    }
  }

  lemma {:induction false} IndexBehind(m: string, t: string, c: char)
    requires c !in m
    ensures IndexOf(m + t, c) == if IndexOf(t, c) < 0 then -1 else |m| + IndexOf(t, c)
  {
    if m == "" {
      assert m + t == t;
    } else {
      assert (m + t)[1..] == m[1..] + t;
      IndexBehind(m[1..], t, c);
    }
  }

  // What stands behind a declared letter in the string tells its kind.
  ghost predicate Follows(s: string, k: int, kind: Kind) {
    && 0 <= k < |s|
    && (HasAt(s, k + 1, ':') <==> kind.Required? || kind.Optional?)
    && (kind.Required? || kind.Optional? ==> (HasAt(s, k + 2, ':') <==> kind.Optional?))
    && (HasAt(s, k + 1, ';') <==> kind.LongVia?)
  }

  lemma FollowsFirst(ds: seq<Decl>)
    requires ProperDecls(ds) && ds != []
    ensures Follows(Marks(ds), 0, ds[0].kind)
  {
    var t := Marks(ds[1..]);
    assert Marks(ds) == Mark(ds[0]) + t;
    assert t != "" ==> t[0] == ds[1].letter && ds[1] in ds;
  }

  lemma FollowsBehind(m: string, s: string, k: int, kind: Kind)
    requires Follows(s, k, kind)
    ensures Follows(m + s, |m| + k, kind)
  {
    assert forall j | 0 <= j :: HasAt(m + s, |m| + j, ':') <==> HasAt(s, j, ':');
    assert forall j | 0 <= j :: HasAt(m + s, |m| + j, ';') <==> HasAt(s, j, ';');
  }

  lemma NothingDeclared(c: char)
    ensures Undeclared([], c)
  {
  }

  lemma ProperRest(ds: seq<Decl>, c: char)
    requires ProperDecls(ds) && ds != []
    ensures ProperDecls(ds[1..])
    ensures Decl('W', LongVia) in ds <==> ds[0].kind.LongVia? || Decl('W', LongVia) in ds[1..]
    ensures Undeclared(ds, c) <==> ds[0].letter != c && Undeclared(ds[1..], c)
  {
    assert forall d | d in ds[1..] :: d in ds;
    assert forall d | d in ds :: d == ds[0] || d in ds[1..];
    assert ds[0] in ds;
  }

  lemma {:induction false} FirstDecl(ds: seq<Decl>, c: char)
    requires ProperDecls(ds)
    ensures forall kind | Declares(ds, c, kind) ::
              Decl(c, kind) in ds && c != ':' && c != ';' && (kind.LongVia? ==> c == 'W')
    ensures !Undeclared(ds, c) ==> exists kind :: Declares(ds, c, kind)
  {
    if ds == [] {
    } else if ds[0].letter == c {
      assert ds[0] in ds && Declares(ds, c, ds[0].kind);
    } else {
      ProperRest(ds, c);
      FirstDecl(ds[1..], c);
      if !Undeclared(ds, c) {
        var kind :| Declares(ds[1..], c, kind);
        assert Declares(ds, c, kind);
      }
    }
  }

  lemma FirstIsFound(ds: seq<Decl>)
    requires ds != []
    ensures IndexOf(Marks(ds), ds[0].letter) == 0
  {
    assert Marks(ds)[0] == ds[0].letter;
  }

  lemma FollowsThere(s: string, k: int, kind: Kind)
    requires Follows(s, k, kind)
    ensures k >= 0
  {
  }

  lemma {:induction false} LookUp(ds: seq<Decl>, c: char)
    requires ProperDecls(ds) && c != ':' && c != ';'
    ensures IndexOf(Marks(ds), c) < 0 <==> Undeclared(ds, c)
    ensures forall kind | Declares(ds, c, kind) :: Follows(Marks(ds), IndexOf(Marks(ds), c), kind)
  {
    hide ProperDecls, Follows, Undeclared, IndexOf;
    if ds == [] {
      assert Undeclared([], c) by { NothingDeclared(c); }
    } else if ds[0].letter == c {
      ProperRest(ds, c);
      FollowsFirst(ds);
      FirstIsFound(ds);
    } else {
      var t := Marks(ds[1..]);
      assert c !in Mark(ds[0]) && Marks(ds) == Mark(ds[0]) + t;
      hide Mark, Marks;
      ProperRest(ds, c);
      LookUp(ds[1..], c);
      IndexBehind(Mark(ds[0]), t, c);
      forall kind | Declares(ds, c, kind)
        ensures Follows(Marks(ds), IndexOf(Marks(ds), c), kind)
      {
        FollowsBehind(Mark(ds[0]), t, IndexOf(t, c), kind);
        FollowsThere(t, IndexOf(t, c), kind);
      }
    }
  }

  lemma SemicolonOf(ds: seq<Decl>)
    requires ProperDecls(ds) && ds != []
    ensures (';' in Mark(ds[0]) <==> ds[0].kind.LongVia?) && ds[0].letter != ';'
  {
    assert ds[0] in ds;
    assert ds[0].kind.LongVia? ==> Mark(ds[0])[1] == ';';
  }

  lemma {:induction false} SemicolonIn(ds: seq<Decl>)
    requires ProperDecls(ds)
    ensures ';' in Marks(ds) <==> Decl('W', LongVia) in ds
  {
    if ds != [] {
      SemicolonOf(ds);
      ProperRest(ds, 'W');
      hide ProperDecls;
      SemicolonIn(ds[1..]);
    }
  }

  lemma HasAtBehind(m: string, t: string, k: nat, c: char)
    ensures HasAt(m + t, |m| + k, c) <==> HasAt(t, k, c)
  {
  }

  lemma {:induction false} SemicolonEnds(ds: seq<Decl>)
    requires ProperDecls(ds) && ';' in Marks(ds)
    ensures !HasAt(Marks(ds), IndexOf(Marks(ds), ';') + 1, ':')
  {
    hide ProperDecls, IndexOf;
    SemicolonOf(ds);
    ProperRest(ds, 'W');
    var m, t := Mark(ds[0]), Marks(ds[1..]);
    MarksStart(ds[1..]);
    assert Marks(ds) == m + t;
    if ds[0].kind.LongVia? {
      MarkOfVia(ds[0], t);
      HasAtBehind(m, t, 0, ':');
    } else {
      hide Mark, Marks;
      IndexBehind(m, t, ';');
      assert ';' in t;
      SemicolonEnds(ds[1..]);
      HasAtBehind(m, t, IndexOf(t, ';') + 1, ':');
    }
  }

  lemma MarkOfVia(d: Decl, t: string)
    requires d.kind.LongVia? && d.letter != ';'
    ensures |Mark(d)| == 2 && IndexOf(Mark(d) + t, ';') == 1
  {
    var m := Mark(d) + t;
    assert m[0] == d.letter && m[1..][0] == ';';
  }

  lemma SemicolonKnown(p: Program)
    requires WellFormed(p)
    ensures IndexOf(LetterString(p), ';') < 0 <==> !HasSemicolon(p)
    ensures Undeclared(p.decls, ';') && forall kind :: !Declares(p.decls, ';', kind)
    ensures HasSemicolon(p) ==> !HasAt(LetterString(p), IndexOf(LetterString(p), ';') + 1, ':')
  {
    hide IndexOf, Marks;
    var colon := if p.quiet then ":" else "";
    IndexBehind(colon, Marks(p.decls), ';');
    FirstDecl(p.decls, ';');
    SemicolonIn(p.decls);
    if HasSemicolon(p) {
      SemicolonEnds(p.decls);
      HasAtBehind(colon, Marks(p.decls), IndexOf(Marks(p.decls), ';') + 1, ':');
    }
  }

  lemma LetterDeclared(p: Program, c: char)
    requires WellFormed(p) && c != ':' && c != ';'
    ensures IndexOf(LetterString(p), c) < 0 <==> Undeclared(p.decls, c)
    ensures forall kind | Declares(p.decls, c, kind) :: Follows(LetterString(p), IndexOf(LetterString(p), c), kind)
  {
    hide IndexOf, Marks, Follows, Undeclared, ProperDecls;
    var colon := if p.quiet then ":" else "";
    IndexBehind(colon, Marks(p.decls), c);
    LookUp(p.decls, c);
    forall kind | Declares(p.decls, c, kind)
      ensures Follows(LetterString(p), IndexOf(LetterString(p), c), kind)
    {
      FollowsThere(Marks(p.decls), IndexOf(Marks(p.decls), c), kind);
      FollowsBehind(colon, Marks(p.decls), IndexOf(Marks(p.decls), c), kind);
    }
  }

  // The letter c in the program's own string.
  lemma LetterKnown(p: Program, c: char)
    requires WellFormed(p) && c != ':'
    ensures IndexOf(LetterString(p), c) < 0 <==> !Known(p, c)
    ensures c in LetterString(p) <==> Known(p, c)
    ensures forall kind | Declares(p.decls, c, kind) :: Follows(LetterString(p), IndexOf(LetterString(p), c), kind)
    ensures c == ';' && Known(p, c) ==> !HasAt(LetterString(p), IndexOf(LetterString(p), c) + 1, ':')
  {
    hide IndexOf, LetterString, Follows;
    if c == ';' {
      SemicolonKnown(p);
    } else {
      LetterDeclared(p, c);
    }
  }

  // --- Long options ---

  lemma NameResolves(p: Program, long: seq<LongOption>, text: string, shortToo: bool, k: nat)
    requires NameOf(p, long, text, shortToo, k)
    ensures Resolve(long, text, shortToo, p.longOnly) == Match(k)
  {
    var res := Resolve(long, text, shortToo, p.longOnly);
    if long[k].name == text && forall j | 0 <= j < k :: long[j].name != text {
      assert Exact(long, text, k);
    } else {
      assert forall j :: !Exact(long, text, j);
      assert Partial(long, text, shortToo, k) && FirstPartial(long, text, shortToo, k);
      assert !Contested(long, text, shortToo, p.longOnly, k);
      assert Resolves(long, text, shortToo, p.longOnly, Match(k));
      ResolutionUnique(long, text, shortToo, p.longOnly, res, Match(k));
    }
  }

  lemma NoneResolves(p: Program, long: seq<LongOption>, text: string, shortToo: bool)
    requires NameOfNone(p, long, text, shortToo)
    ensures var res := Resolve(long, text, shortToo, p.longOnly); res.Ambiguous? || (res.NoMatch? && !shortToo)
  {
    if exists j :: 0 <= j < |long| && text <= long[j].name {
      assert forall j :: !Exact(long, text, j);
      var i, j :| && 0 <= i < j < |long| && text <= long[i].name && text <= long[j].name
                  && (p.longOnly || long[j] != long[i].(name := long[j].name));
      assert PartialsClash(long, text, shortToo, p.longOnly, i, j);
      AmbiguousMeans(long, text, shortToo, p.longOnly);
    } else {
      assert forall j :: !Exact(long, text, j) && !Partial(long, text, shortToo, j);
    }
  }

  // The key is split at its first equals sign.
  lemma KeySplits(u: Named)
    requires '=' !in u.text
    ensures var key, eq := Key(u), IndexOf(Key(u), '=');
            if u.form.Equals? then eq == |u.text| && key[..eq] == u.text && key[eq + 1..] == u.form.arg
            else eq < 0 && key == u.text
  {
    if u.form.Equals? {
      IndexBehind(u.text, "=" + u.form.arg, '=');
      assert Key(u) == u.text + ("=" + u.form.arg);
    }
  }

  lemma InTable(p: Program, u: Named, shortToo: bool)
    requires Names(p, u, shortToo) && u.target.Some?
    ensures u.target.value < |p.long.value|
    ensures FormFits(u.form, p.long.value[u.target.value].hasArg)
  {
    assert p.long.value[u.target.value] in p.long.value;
  }

  function Given(u: Named): Option<string> {
    if u.form.Equals? then Some(u.form.arg) else None
  }

  lemma UsesLong(cfg: Config, p: Program, w: seq<string>, i: nat, u: Named, k: nat)
    requires Serves(cfg, p) && p.long.Some? && k < |p.long.value| && u.target == Some(k)
    requires FormFits(u.form, p.long.value[k].hasArg)
    requires 0 < i <= |w| && After(u) <= w[i..] && (u.form.Cut? ==> i == |w|)
    ensures UseLong(cfg, w, i, k, Given(u)) == Step(NamedEvent(p, u), i + |After(u)|, "", u.form.Cut?)
  {
    hide BadArg, Complaint, LetterString;
    if u.form.Next? {
      assert w[i..][0] == w[i] && i < |w|;
    }
  }

  // The name decides, with what stands behind the equals sign as the argument.
  lemma ByName(cfg: Config, w: seq<string>, i: nat, u: Named, shortToo: bool)
    requires cfg.long.Some? && '=' !in u.text && 0 < i <= |w|
    ensures ParseLong(cfg, w, i, Key(u), shortToo) ==
            match Resolve(cfg.long.value, u.text, shortToo, cfg.longOnly)
            case Ambiguous => Some(Step(Event(BADCH, None, Some(0), None, None), i, "", false))
            case NoMatch => if shortToo then None else Some(Step(Event(BADCH, None, Some(0), None, None), i, "", false))
            case Match(k) => Some(UseLong(cfg, w, i, k, Given(u)))
  {
    hide Resolve, Resolves, IndexOf, UseLong;
    KeySplits(u);
    hide Key;
  }

  // A written long option is read back.
  lemma ReadsLong(cfg: Config, p: Program, w: seq<string>, i: nat, u: Named, shortToo: bool)
    requires WellFormed(p) && Serves(cfg, p) && Names(p, u, shortToo) && 0 < i <= |w|
    requires After(u) <= w[i..] && (u.form.Cut? ==> i == |w|)
    ensures u.target.Some? ==> u.target.value < |p.long.value|
    ensures ParseLong(cfg, w, i, Key(u), shortToo) == Some(Step(NamedEvent(p, u), i + |After(u)|, "", u.form.Cut?))
  {
    hide ParseLong, Resolve, Resolves, NameOfNone, NameOf, UseLong, BadArg, Complaint, LetterString, WellFormed,
      FormFits;
    ByName(cfg, w, i, u, shortToo);
    match u.target
    case Some(k) =>
      NameResolves(p, p.long.value, u.text, shortToo, k);
      InTable(p, u, shortToo);
      UsesLong(cfg, p, w, i, u, k);
    case None =>
      NoneResolves(p, p.long.value, u.text, shortToo);
  }

  // --- Letters ---

  // One more letter read, at the front of word i's rest.
  lemma ReadsFlag(cfg: Config, p: Program, w: seq<string>, i: nat, c: char, rest: string)
    requires WellFormed(p) && Serves(cfg, p) && FlagFits(p, c) && i < |w|
    ensures ParseShort(cfg, w, i, [c] + rest) ==
            Step(FlagEvent(p, c), if rest == "" then i + 1 else i, rest, false)
  {
    hide ParseLong, IndexOf, LetterString, BadArg, Complaint;
    if c != ':' {
      LetterKnown(p, c);
    } else {
      ColonUndeclared(p);
    }
    assert ([c] + rest)[1..] == rest;
    hide WellFormed;
  }

  lemma ColonUndeclared(p: Program)
    requires WellFormed(p)
    ensures !IsFlag(p, ':')
  {
    FirstDecl(p.decls, ':');
  }

  lemma ReadsArgument(cfg: Config, p: Program, w: seq<string>, i: nat, e: Ending)
    requires WellFormed(p) && Serves(cfg, p) && EndFits(p, e) && i < |w|
    requires e.Attached? || e.Spaced? || e.Absent? || e.Missing?
    requires EndWords(e) <= w[i + 1..] && (EndCut(e) ==> i + 1 == |w|)
    ensures ParseShort(cfg, w, i, EndText(e)) ==
            Step(EndEvent(p, e), i + 1 + |EndWords(e)|, "", EndCut(e))
  {
    hide ParseLong, IndexOf, LetterString, BadArg, Complaint, NamedEvent, Names;
    NotColon(p, e.letter);
    LetterKnown(p, e.letter);
    assert e.Attached? ==> EndText(e)[1..] == e.arg;
    assert e.Spaced? ==> w[i + 1..][0] == w[i + 1];
    hide WellFormed;
  }

  lemma NotColon(p: Program, c: char)
    requires WellFormed(p) && (Declares(p.decls, c, Required) || Declares(p.decls, c, Optional))
    ensures c != ':'
  {
    FirstDecl(p.decls, c);
  }

  // -W, with the long option in this word or the next.
  lemma ReadsVia(cfg: Config, p: Program, w: seq<string>, i: nat, e: Ending)
    requires WellFormed(p) && Serves(cfg, p) && EndFits(p, e) && i < |w|
    requires e.Via? || e.ViaSpaced? || e.ViaMissing?
    requires EndWords(e) <= w[i + 1..] && (EndCut(e) ==> i + 1 + |EndWords(e)| == |w|)
    ensures ParseShort(cfg, w, i, EndText(e)) ==
            Step(EndEvent(p, e), i + 1 + |EndWords(e)|, "", EndCut(e))
  {
    hide ParseLong, IndexOf, LetterString, BadArg, Complaint, NamedEvent, UseShort, Key;
    LetterKnown(p, 'W');
    match e
    case Via(u) =>
      assert EndText(e)[1..] == Key(u);
      ReadsLong(cfg, p, w, i + 1, u, false);
    case ViaSpaced(u) =>
      assert w[i + 1..][0] == w[i + 1];
      assert w[i + 2..] == w[i + 1..][1..];
      ReadsLong(cfg, p, w, i + 2, u, false);
    case ViaMissing =>
  }

  // A long option behind a second dash, ...
  lemma ReadsDouble(cfg: Config, p: Program, w: seq<string>, i: nat, u: Named)
    requires WellFormed(p) && Serves(cfg, p) && Names(p, u, false) && i < |w|
    requires After(u) <= w[i + 1..] && (u.form.Cut? ==> i + 1 == |w|)
    ensures u.target.Some? ==> u.target.value < |p.long.value|
    ensures ParseOption(cfg, w, i, "-" + Key(u), true) ==
            Step(NamedEvent(p, u), i + 1 + |After(u)|, "", u.form.Cut?)
  {
    hide ParseShort, ParseLong, WellFormed, NamedEvent, BadArg, Complaint, LetterString, Key, After;
    assert ("-" + Key(u))[1..] == Key(u);
    ReadsLong(cfg, p, w, i + 1, u, false);
  }

  // ... or, for getopt_long_only, behind none.
  lemma ReadsSingle(cfg: Config, p: Program, w: seq<string>, i: nat, u: Named)
    requires WellFormed(p) && Serves(cfg, p) && i < |w| && p.longOnly && Key(u) != "" && Key(u)[0] != '-'
    requires Names(p, u, Known(p, Key(u)[0]))
    requires After(u) <= w[i + 1..] && (u.form.Cut? ==> i + 1 == |w|)
    ensures u.target.Some? ==> u.target.value < |p.long.value|
    ensures ParseOption(cfg, w, i, Key(u), true) == Step(NamedEvent(p, u), i + 1 + |After(u)|, "", u.form.Cut?)
  {
    hide ParseShort, ParseLong, WellFormed, NamedEvent, BadArg, Complaint, LetterString, Key, After, IndexOf, Known;
    var c := Key(u)[0];
    ColonUnknown(p);
    if c != ':' {
      LetterKnown(p, c);
    }
    ReadsLong(cfg, p, w, i + 1, u, Known(p, c));
  }

  lemma ReadsNamed(cfg: Config, p: Program, w: seq<string>, i: nat, e: Ending)
    requires WellFormed(p) && Serves(cfg, p) && EndFits(p, e) && IsLong(e) && i < |w|
    requires EndWords(e) <= w[i + 1..] && (EndCut(e) ==> i + 1 == |w|)
    ensures EndText(e) != ""
    ensures ParseOption(cfg, w, i, EndText(e), true) == Step(EndEvent(p, e), i + 1 + |EndWords(e)|, "", EndCut(e))
  {
    hide ParseOption, WellFormed, NamedEvent, Serves, Key, After, Names;
    if e.Double? {
      ReadsDouble(cfg, p, w, i, e.named);
    } else {
      ReadsSingle(cfg, p, w, i, e.named);
    }
  }

  lemma ColonUnknown(p: Program)
    requires WellFormed(p)
    ensures !Known(p, ':')
  {
  }

  // What an ending asks of the words from i on.
  predicate EndStands(w: seq<string>, i: nat, e: Ending) {
    i < |w| && EndWords(e) <= w[i + 1..] && (EndCut(e) ==> i + 1 + |EndWords(e)| == |w|)
  }

  lemma ReadsShort(cfg: Config, p: Program, w: seq<string>, i: nat, e: Ending)
    requires WellFormed(p) && Serves(cfg, p) && EndFits(p, e) && EndStands(w, i, e) && !e.Alone? && !IsLong(e)
    ensures ParseShort(cfg, w, i, EndText(e)) == Step(EndEvent(p, e), i + 1 + |EndWords(e)|, "", EndCut(e))
  {
    hide ParseShort, WellFormed, Serves, EndFits, EndWords, EndCut, EndEvent, EndText;
    if e.Via? || e.ViaSpaced? || e.ViaMissing? {
      ReadsVia(cfg, p, w, i, e);
    } else {
      NoWords(e);
      ReadsArgument(cfg, p, w, i, e);
    }
  }

  lemma NoWords(e: Ending)
    ensures e.Missing? || (IsLong(e) && EndCut(e)) ==> EndWords(e) == []
    ensures EndCut(e) ==> e.Missing? || e.Via? || e.ViaSpaced? || e.ViaMissing? || IsLong(e)
  {
  }

  lemma TakesLetter(cfg: Config, p: Program, w: seq<string>, i: nat, text: string)
    requires WellFormed(p) && Serves(cfg, p) && text != "" && TakenAsLetter(p, text) && i < |w|
    ensures ParseOption(cfg, w, i, text, true) == ParseShort(cfg, w, i, text)
  {
    hide ParseShort, IndexOf, LetterString, BadArg, Complaint, Resolve;
    if p.long.Some? && p.longOnly {
      var name := Before(text, '=');
      ColonUndeclared(p);
      LetterKnown(p, text[0]);
      NoneMatches(p, name);
    }
  }

  lemma NoneMatches(p: Program, name: string)
    requires p.long.Some? && NoName(p.long.value, name)
    ensures Resolve(p.long.value, name, true, p.longOnly) == NoMatch
  {
    assert forall j :: !Exact(p.long.value, name, j) && !Partial(p.long.value, name, true, j);
  }

  // The run that is rest, after more.
  function Added(events: seq<Event>, taken: seq<string>, skipped: seq<string>, missing: bool, rest: Run): Run {
    rest.(events := events + rest.events, opts := taken + rest.opts, nonopts := skipped + rest.nonopts,
      missing := missing || rest.missing)
  }

  lemma AddedTwice(e1: seq<Event>, t1: seq<string>, s1: seq<string>, m1: bool,
      e2: seq<Event>, t2: seq<string>, s2: seq<string>, m2: bool, rest: Run)
    ensures Added(e1, t1, s1, m1, Added(e2, t2, s2, m2, rest)) == Added(e1 + e2, t1 + t2, s1 + s2, m1 || m2, rest)
  {
    assert e1 + (e2 + rest.events) == e1 + e2 + rest.events;
    assert t1 + (t2 + rest.opts) == t1 + t2 + rest.opts;
    assert s1 + (s2 + rest.nonopts) == s1 + s2 + rest.nonopts;
  }

  lemma OneFlag(cfg: Config, p: Program, w: seq<string>, i: nat, c: char, rest: string)
    requires WellFormed(p) && Serves(cfg, p) && FlagFits(p, c) && TakenAsLetter(p, [c] + rest) && i < |w|
    ensures Scan(cfg, w, i, [c] + rest) ==
            Added([FlagEvent(p, c)], if rest == "" then [w[i]] else [], [], false,
                  Scan(cfg, w, if rest == "" then i + 1 else i, rest))
  {
    hide Scan, ParseOption, ParseShort, WellFormed, Serves, FlagFits, FlagEvent, TakenAsLetter;
    ScanOption(cfg, w, i, [c] + rest);
    TakesLetter(cfg, p, w, i, [c] + rest);
    ReadsFlag(cfg, p, w, i, c, rest);
    assert w[i..i + 1] == [w[i]] && w[i..i] == [];
  }

  // A step that takes the rest of word i and the arguments behind it.
  lemma OneStep(cfg: Config, w: seq<string>, i: nat, place: string, event: Event, args: seq<string>, missing: bool)
    requires AtOption(cfg, w, i, place) && args <= w[i + 1..]
    requires NextStep(cfg, w, i, place) == Step(event, i + 1 + |args|, "", missing)
    ensures Scan(cfg, w, i, place) ==
            Added([event], [w[i]] + args, [], missing, Scan(cfg, w, i + 1 + |args|, ""))
  {
    hide Scan, NextStep, AtOption;
    ScanOption(cfg, w, i, place);
    assert w[i..i + 1 + |args|] == [w[i]] + w[i + 1..][..|args|];
  }

  lemma ReadsEnd(cfg: Config, p: Program, w: seq<string>, i: nat, e: Ending)
    requires WellFormed(p) && Serves(cfg, p) && EndFits(p, e) && EndStands(w, i, e) && !e.Alone?
    requires EndText(e) != "" && (IsLong(e) || TakenAsLetter(p, EndText(e)))
    ensures ParseOption(cfg, w, i, EndText(e), true) == Step(EndEvent(p, e), i + 1 + |EndWords(e)|, "", EndCut(e))
  {
    hide ParseShort, ParseOption, WellFormed, Serves, EndFits, EndWords, EndCut, EndEvent, EndText, TakenAsLetter;
    if IsLong(e) {
      NoWords(e);
      ReadsNamed(cfg, p, w, i, e);
    } else {
      TakesLetter(cfg, p, w, i, EndText(e));
      ReadsShort(cfg, p, w, i, e);
    }
  }

  // What reading the letters of word i, or the rest of them, comes to.
  ghost predicate LettersReadAt(cfg: Config, p: Program, w: seq<string>, i: nat, flags: string, e: Ending)
    requires EndFits(p, e) && EndStands(w, i, e) && flags + EndText(e) != ""
  {
    Scan(cfg, w, i, flags + EndText(e)) ==
      Added(LetterEvents(p, flags, e), [w[i]] + EndWords(e), [], EndCut(e), Scan(cfg, w, i + 1 + |EndWords(e)|, ""))
  }

  lemma OneEnd(cfg: Config, p: Program, w: seq<string>, i: nat, e: Ending)
    requires WellFormed(p) && Serves(cfg, p) && EndFits(p, e) && EndStands(w, i, e)
    requires EndText(e) != "" && AllLetters(p, "", e)
    ensures LettersReadAt(cfg, p, w, i, "", e)
  {
    hide Scan, ParseOption, WellFormed, Serves, EndEvent, EndFits, EndWords, EndCut, EndText, TakenAsLetter, Added;
    NotAlone(e);
    assert "" + EndText(e) == EndText(e);
    ReadsEnd(cfg, p, w, i, e);
    OneStep(cfg, w, i, EndText(e), EndEvent(p, e), EndWords(e), EndCut(e));
  }

  // The letters of word i are read back.
  lemma {:induction false} ReadsLetters(cfg: Config, p: Program, w: seq<string>, i: nat, flags: string, e: Ending)
    requires WellFormed(p) && Serves(cfg, p) && FlagsFit(p, flags) && EndFits(p, e) && EndStands(w, i, e)
    requires flags + EndText(e) != "" && AllLetters(p, flags, e)
    ensures LettersReadAt(cfg, p, w, i, flags, e)
    decreases |flags|
  {
    hide Scan, WellFormed, Serves, FlagFits, FlagEvent, EndEvents, EndFits, EndWords, EndCut, EndText, TakenAsLetter,
      Added;
    if flags == "" {
      OneEnd(cfg, p, w, i, e);
    } else {
      var rest, next := flags[1..] + EndText(e), i + 1 + |EndWords(e)|;
      assert flags + EndText(e) == [flags[0]] + rest;
      OneFlag(cfg, p, w, i, flags[0], rest);
      if rest == "" {
        assert flags[1..] == "" && EndText(e) == "";
        AloneEnds(p, e);
        assert LetterEvents(p, flags, e) == [FlagEvent(p, flags[0])];
        assert [w[i]] + EndWords(e) == [w[i]];
      } else {
        ReadsLetters(cfg, p, w, i, flags[1..], e);
        AddedTwice([FlagEvent(p, flags[0])], [], [], false,
          LetterEvents(p, flags[1..], e), [w[i]] + EndWords(e), [], EndCut(e), Scan(cfg, w, next, ""));
        var none: seq<string> := [];
        assert none + ([w[i]] + EndWords(e)) == [w[i]] + EndWords(e) && none + none == none;
      }
    }
  }

  lemma NotAlone(e: Ending)
    ensures e.Alone? ==> EndText(e) == ""
    ensures EndText(e) == "" ==> e.Alone? || e.Single?
  {
  }

  lemma AloneEnds(p: Program, e: Ending)
    requires EndText(e) == "" && EndFits(p, e)
    ensures EndEvents(p, e) == [] && EndWords(e) == [] && !EndCut(e)
  {
  }

  // --- A group ---

  lemma NonOptionIs(cfg: Config, p: Program, word: string)
    requires WellFormed(p) && Serves(cfg, p)
    ensures IsNonOption(cfg, word) <==> NonOption(p, word)
  {
    hide IndexOf, LetterString, BadArg, Complaint;
    LetterKnown(p, '-');
  }

  // A word that starts with a dash is read from behind it.
  lemma ReadsWord(cfg: Config, p: Program, w: seq<string>, i: nat, text: string)
    requires i < |w| && w[i] == "-" + text && text != "" && text != "-"
    ensures AtOption(cfg, w, i, "") && NextStep(cfg, w, i, "") == ParseOption(cfg, w, i, text, true)
    ensures Scan(cfg, w, i, "") == Scan(cfg, w, i, text)
  {
    hide ParseOption, Scan;
    assert w[i][1..] == text;
    ScanOption(cfg, w, i, "");
    ScanOption(cfg, w, i, text);
  }

  // Word i and those behind it are the group's.
  predicate StandsAt(w: seq<string>, i: nat, g: Group) {
    && i < |w| && w[i] == Word(g) && Arguments(g) <= w[i + 1..]
    && (IsCut(g) ==> i + |Words(g)| == |w|)
  }

  ghost predicate ReadBackAt(cfg: Config, p: Program, w: seq<string>, i: nat, g: Group)
    requires Fits(p, g) && StandsAt(w, i, g)
  {
    Scan(cfg, w, i, "") ==
      Added(Events(p, g), Taken(p, g), Skipped(p, g), IsCut(g), Scan(cfg, w, i + |Words(g)|, ""))
  }

  lemma ReadsOption(cfg: Config, p: Program, w: seq<string>, i: nat, g: Group)
    requires WellFormed(p) && Serves(cfg, p) && Fits(p, g) && StandsAt(w, i, g) && g.Opt? && g.lead
    ensures ReadBackAt(cfg, p, w, i, g)
  {
    hide Scan, WellFormed, Serves, FlagsFit, EndFits, EndWords, EndText, EndCut, LetterEvents, AllLetters, Added;
    ReadsWord(cfg, p, w, i, g.flags + EndText(g.end));
    ReadsLetters(cfg, p, w, i, g.flags, g.end);
  }

  // The lone dash is a word of one letter.
  lemma StepOfDash(cfg: Config, p: Program, w: seq<string>, i: nat)
    requires WellFormed(p) && Serves(cfg, p) && !Undeclared(p.decls, '-') && i < |w| && w[i] == "-"
    ensures AtOption(cfg, w, i, "") && NextStep(cfg, w, i, "") == ParseShort(cfg, w, i, "-")
  {
    hide WellFormed, Serves, ParseShort, ParseLong, IsNonOption;
    NonOptionIs(cfg, p, "-");
  }

  lemma ReadsDashFlag(cfg: Config, p: Program, w: seq<string>, i: nat, g: Group)
    requires WellFormed(p) && Serves(cfg, p) && Fits(p, g) && StandsAt(w, i, g)
    requires g.Opt? && !g.lead && g.flags != ""
    ensures ReadBackAt(cfg, p, w, i, g)
  {
    hide Scan, WellFormed, Serves, FlagFits, FlagEvent, EndFits, EndWords, EndText, EndCut, ParseShort, NextStep,
      AtOption, Added;
    var e := g.end;
    assert g.flags == "-" && EndText(e) == "";
    AloneEnds(p, e);
    StepOfDash(cfg, p, w, i);
    ReadsFlag(cfg, p, w, i, '-', "");
    OneStep(cfg, w, i, "", FlagEvent(p, '-'), EndWords(e), EndCut(e));
    assert LetterEvents(p, g.flags, e) == [FlagEvent(p, '-')];
  }

  lemma ReadsDashEnd(cfg: Config, p: Program, w: seq<string>, i: nat, g: Group)
    requires WellFormed(p) && Serves(cfg, p) && Fits(p, g) && StandsAt(w, i, g)
    requires g.Opt? && !g.lead && g.flags == ""
    ensures ReadBackAt(cfg, p, w, i, g)
  {
    hide Scan, WellFormed, Serves, EndEvent, EndFits, EndWords, EndText, EndCut, ParseShort, NextStep, AtOption, Added;
    var e := g.end;
    NotAlone(e);
    assert g.flags + EndText(e) == EndText(e);
    StepOfDash(cfg, p, w, i);
    ReadsShort(cfg, p, w, i, e);
    OneStep(cfg, w, i, "", EndEvent(p, e), EndWords(e), EndCut(e));
  }

  lemma ReadsPlain(cfg: Config, p: Program, w: seq<string>, i: nat, g: Group)
    requires WellFormed(p) && Serves(cfg, p) && Fits(p, g) && StandsAt(w, i, g) && g.Plain?
    ensures ReadBackAt(cfg, p, w, i, g)
  {
    hide WellFormed, BadArg, Complaint, NextStep, IsNonOption;
    NonOptionIs(cfg, p, g.word);
    NotDashes(p, g.word);
  }

  lemma NotDashes(p: Program, word: string)
    requires NonOption(p, word)
    ensures word != "--"
  {
  }

  lemma ReadsGroup(cfg: Config, p: Program, w: seq<string>, i: nat, g: Group)
    requires WellFormed(p) && Serves(cfg, p) && Fits(p, g) && StandsAt(w, i, g)
    ensures ReadBackAt(cfg, p, w, i, g)
  {
    hide WellFormed, Serves, Fits, StandsAt, ReadBackAt;
    if g.Plain? {
      ReadsPlain(cfg, p, w, i, g);
    } else if g.lead {
      ReadsOption(cfg, p, w, i, g);
    } else if g.flags == "" {
      ReadsDashEnd(cfg, p, w, i, g);
    } else {
      ReadsDashFlag(cfg, p, w, i, g);
    }
  }

  // --- All of it ---

  lemma TailStands(w: seq<string>, i: nat, tail: Tail)
    requires i <= |w| && w[i..] == TailWords(tail)
    ensures tail.End? ==> i == |w|
    ensures tail.Dashes? ==> i < |w| && w[i] == "--" && i + 1 + |tail.rest| == |w|
    ensures tail.Stop? ==> i + |tail.rest| == |w| && (tail.rest != [] ==> w[i] == tail.rest[0])
  {
    if i < |w| {
      assert w[i..][0] == w[i];
    }
  }

  lemma ReadsTail(cfg: Config, p: Program, w: seq<string>, i: nat, tail: Tail)
    requires WellFormed(p) && Serves(cfg, p) && TailFits(p, tail) && i <= |w| && w[i..] == TailWords(tail)
    ensures Unread(tail) <= |w| && Scan(cfg, w, i, "") == Reading(p, [], tail, |w|)
  {
    hide WellFormed, BadArg, Complaint, NextStep, IsNonOption;
    TailStands(w, i, tail);
    if tail.Stop? {
      NonOptionIs(cfg, p, tail.rest[0]);
      NotDashes(p, tail.rest[0]);
    }
  }

  lemma GroupStands(w: seq<string>, i: nat, p: Program, gs: seq<Group>, tail: Tail)
    requires gs != [] && AllFit(p, gs, tail) && i <= |w| && w[i..] == AllWords(gs, tail)
    ensures StandsAt(w, i, gs[0]) && i + |Words(gs[0])| <= |w|
    ensures w[i + |Words(gs[0])|..] == AllWords(gs[1..], tail)
  {
    hide Word, Arguments, IsCut, Fits;
    var g, rest := gs[0], AllWords(gs[1..], tail);
    assert w[i..] == Words(g) + rest;
    assert w[i] == w[i..][0] == Words(g)[0];
    assert w[i + 1..] == w[i..][1..] == Arguments(g) + rest;
    assert w[i + |Words(g)|..] == w[i..][|Words(g)|..] == rest;
    if IsCut(g) {
      assert rest == [];
    }
  }

  lemma MoreRead(p: Program, gs: seq<Group>, tail: Tail, end: nat)
    requires gs != [] && AllFit(p, gs, tail) && Unread(tail) <= end
    ensures Reading(p, gs, tail, end) ==
            Added(Events(p, gs[0]), Taken(p, gs[0]), Skipped(p, gs[0]), IsCut(gs[0]), Reading(p, gs[1..], tail, end))
  {
    hide Events, Taken, Skipped, IsCut, Fits;
    assert gs == [gs[0]] + gs[1..];
  }

  // What was written is read back, event for event and word for word.
  lemma {:induction false} ReadBack(cfg: Config, p: Program, w: seq<string>, i: nat, gs: seq<Group>, tail: Tail)
    requires WellFormed(p) && Serves(cfg, p) && AllFit(p, gs, tail)
    requires i <= |w| && w[i..] == AllWords(gs, tail)
    ensures Unread(tail) <= |w| && Scan(cfg, w, i, "") == Reading(p, gs, tail, |w|)
    decreases |gs|
  {
    hide WellFormed, Serves, Scan, Reading, StandsAt, Fits, Added, Words, Events, Taken, Skipped, IsCut, TailFits;
    if gs == [] {
      ReadsTail(cfg, p, w, i, tail);
    } else {
      GroupStands(w, i, p, gs, tail);
      ReadsGroup(cfg, p, w, i, gs[0]);
      ReadBack(cfg, p, w, i + |Words(gs[0])|, gs[1..], tail);
      MoreRead(p, gs, tail, |w|);
    }
  }

  // --- Every command line is written so ---

  // An ending that can be written when the words more are what follows.
  ghost predicate EndWritten(p: Program, e: Ending, more: seq<string>) {
    && EndFits(p, e) && EndWords(e) <= more
    && (EndCut(e) ==> more == EndWords(e))
  }

  lemma FormFor(hasArg: int, key: string, more: seq<string>) returns (form: Form)
    ensures FormFits(form, hasArg) && (form.Next? ==> more != [] && form.arg == more[0]) && (form.Cut? ==> more == [])
    ensures form.Equals? <==> '=' in key
    ensures form.Equals? ==> key == Before(key, '=') + "=" + form.arg
  {
    var k := IndexOf(key, '=');
    if k >= 0 {
      form := Equals(key[k + 1..]);
    } else if hasArg != REQUIRED_ARGUMENT {
      form := Bare;
    } else if more == [] {
      form := Cut;
    } else {
      form := Next(more[0]);
    }
  }

  // Whatever the text resolves to, it names.
  lemma TargetFor(p: Program, text: string, shortToo: bool) returns (target: Option<nat>)
    requires p.long.Some?
    requires var res := Resolve(p.long.value, text, shortToo, p.longOnly); res.NoMatch? ==> !shortToo
    ensures match target
            case Some(k) => k < |p.long.value| && NameOf(p, p.long.value, text, shortToo, k)
            case None => NameOfNone(p, p.long.value, text, shortToo)
  {
    var long := p.long.value;
    match Resolve(long, text, shortToo, p.longOnly)
    case Match(k) =>
      target := Some(k);
      MatchNames(p, long, text, shortToo, k);
    case Ambiguous =>
      target := None;
      AmbiguousNames(p, long, text, shortToo);
    case NoMatch =>
      target := None;
      forall j | 0 <= j < |long|
        ensures !(text <= long[j].name)
      {
        assert !Exact(long, text, j) && !Partial(long, text, shortToo, j);
      }
  }

  lemma MatchNames(p: Program, long: seq<LongOption>, text: string, shortToo: bool, k: nat)
    requires Resolve(long, text, shortToo, p.longOnly) == Match(k)
    ensures k < |long| && NameOf(p, long, text, shortToo, k)
  {
    if exists j :: Exact(long, text, j) {
      assert forall j | 0 <= j < k :: Exact(long, text, j) <==> long[j].name == text;
    } else {
      assert FirstPartial(long, text, shortToo, k) && !Contested(long, text, shortToo, p.longOnly, k);
      forall j | 0 <= j < |long| && j != k && text <= long[j].name
        ensures k < j && text != long[j].name && !p.longOnly && long[j] == long[k].(name := long[j].name)
      {
        assert !Exact(long, text, j);
        assert Partial(long, text, shortToo, j);
      }
      assert ShortFor(p, long, text, k);
    }
  }

  lemma AmbiguousNames(p: Program, long: seq<LongOption>, text: string, shortToo: bool)
    requires Resolve(long, text, shortToo, p.longOnly) == Ambiguous
    ensures NameOfNone(p, long, text, shortToo)
  {
    AmbiguousMeans(long, text, shortToo, p.longOnly);
    assert forall j | 0 <= j < |long| :: Exact(long, text, j) <==> text == long[j].name;
    var i, j :| i != j && PartialsClash(long, text, shortToo, p.longOnly, i, j);
    var a, b := if i < j then i else j, if i < j then j else i;
    assert 0 <= a < b < |long| && text <= long[a].name && text <= long[b].name;
    assert p.longOnly || long[b] != long[a].(name := long[b].name);
  }

  lemma NamedFor(p: Program, key: string, shortToo: bool, more: seq<string>) returns (u: Named)
    requires WellFormed(p) && p.long.Some?
    requires Resolve(p.long.value, Before(key, '='), shortToo, p.longOnly).NoMatch? ==> !shortToo
    ensures Key(u) == key && Names(p, u, shortToo) && After(u) <= more && (u.form.Cut? ==> more == [])
  {
    hide Resolve, Resolves, NameOf, NameOfNone, IndexOf;
    var text := Before(key, '=');
    var target := TargetFor(p, text, shortToo);
    assert target.Some? ==> p.long.value[target.value] in p.long.value;
    var form := FormFor(if target.Some? then p.long.value[target.value].hasArg else NO_ARGUMENT, key, more);
    u := Named(text, target, form);
  }

  // A letter that takes something.
  lemma EndFor(p: Program, text: string, more: seq<string>) returns (e: Ending)
    requires WellFormed(p) && text != "" && !FlagFits(p, text[0])
    ensures EndText(e) == text && EndWritten(p, e, more) && !e.Alone? && !IsLong(e)
  {
    hide Resolve, Resolves, NameOf, NameOfNone, IndexOf;
    var c, rest := text[0], text[1..];
    assert text == [c] + rest;
    FirstDecl(p.decls, c);
    var kind :| Declares(p.decls, c, kind);
    match kind
    case Flag =>
      assert false;
    case Required =>
      e := if rest != "" then Attached(c, rest) else if more != [] then Spaced(c, more[0]) else Missing(c);
    case Optional =>
      e := if rest != "" then Attached(c, rest) else Absent(c);
    case LongVia =>
      e := ViaFor(p, rest, more);
  }

  lemma ViaFor(p: Program, rest: string, more: seq<string>) returns (e: Ending)
    requires WellFormed(p) && Declares(p.decls, 'W', LongVia) && p.long.Some?
    ensures EndText(e) == "W" + rest && EndWritten(p, e, more) && !e.Alone? && !IsLong(e)
  {
    hide WellFormed, Names, Resolve, Resolves;
    if rest != "" {
      var u := NamedFor(p, rest, false, more);
      e := Via(u);
    } else if more != [] {
      var u := NamedFor(p, more[0], false, more[1..]);
      e := ViaSpaced(u);
      assert more == [more[0]] + more[1..];
    } else {
      e := ViaMissing;
    }
  }

  lemma NoMatchNoName(p: Program, name: string)
    requires p.long.Some? && Resolve(p.long.value, name, true, p.longOnly) == NoMatch
    ensures NoName(p.long.value, name)
  {
    forall j | 0 <= j < |p.long.value| && name <= p.long.value[j].name
      ensures |name| == 1 && name != p.long.value[j].name
    {
      assert !Exact(p.long.value, name, j) && !Partial(p.long.value, name, true, j);
    }
  }

  lemma DoubleFor(p: Program, text: string, more: seq<string>) returns (e: Ending)
    requires WellFormed(p) && p.long.Some? && text != "" && text[0] == '-'
    ensures IsLong(e) && EndText(e) == text && EndWritten(p, e, more)
  {
    hide WellFormed, Names, Resolve, Resolves;
    var u := NamedFor(p, text[1..], false, more);
    e := Double(u);
  }

  lemma SingleFor(p: Program, text: string, more: seq<string>) returns (e: Ending)
    requires WellFormed(p) && p.long.Some? && p.longOnly && text != "" && text[0] != '-'
    requires !(Known(p, text[0]) && NoName(p.long.value, Before(text, '=')))
    ensures IsLong(e) && EndText(e) == text && EndWritten(p, e, more)
  {
    hide WellFormed, Names, NoName, Known, Before, Resolve, Resolves;
    if Resolve(p.long.value, Before(text, '='), true, p.longOnly) == NoMatch {
      NoMatchNoName(p, Before(text, '='));
    }
    var u := NamedFor(p, text, Known(p, text[0]), more);
    e := Single(u);
  }

  lemma {:induction false} LettersFor(p: Program, text: string, more: seq<string>) returns (flags: string, e: Ending)
    requires WellFormed(p)
    ensures flags + EndText(e) == text && FlagsFit(p, flags) && AllLetters(p, flags, e) && EndWritten(p, e, more)
    decreases |text|
  {
    hide WellFormed, NoName, Before, Known, FlagFits, EndWritten, EndText;
    flags := "";
    if text == "" {
      e := Alone;
      AloneFits(p);
      AloneWritten(p, more);
    } else if p.long.Some? && text[0] == '-' {
      e := DoubleFor(p, text, more);
    } else if p.long.Some? && p.longOnly && !(Known(p, text[0]) && NoName(p.long.value, Before(text, '='))) {
      e := SingleFor(p, text, more);
    } else if !FlagFits(p, text[0]) {
      e := EndFor(p, text, more);
    } else {
      flags, e := LettersFor(p, text[1..], more);
      flags := [text[0]] + flags;
      assert flags[1..] + EndText(e) == text[1..];
      assert flags + EndText(e) == text;
    }
  }

  lemma AloneFits(p: Program)
    ensures EndFits(p, Alone) && EndText(Alone) == "" && EndWords(Alone) == [] && !EndCut(Alone)
  {
  }

  lemma AloneWritten(p: Program, more: seq<string>)
    ensures EndWritten(p, Alone, more)
  {
  }

  lemma GroupFor(p: Program, word: string, more: seq<string>) returns (g: Group)
    requires WellFormed(p) && word != "--" && (NonOption(p, word) ==> p.sign.Minus? || Permutes(p))
    ensures Fits(p, g) && Word(g) == word && Arguments(g) <= more && (IsCut(g) ==> more == Arguments(g))
  {
    hide WellFormed, EndFits, EndWords, EndText, EndCut, FlagFits, AllLetters;
    if NonOption(p, word) {
      g := Plain(word);
    } else if word != "-" {
      var flags, e := LettersFor(p, word[1..], more);
      g := Opt(true, flags, e);
      assert word == "-" + word[1..];
    } else if FlagFits(p, '-') {
      g := Opt(false, "-", Alone);
      NotAlone(Alone);
      AloneFits(p);
      assert "-" + EndText(Alone) == "-";
    } else {
      var e := EndFor(p, word, more);
      g := Opt(false, "", e);
      assert "" + EndText(e) == "-";
    }
  }

  // Every command line is written that way, ...
  lemma {:induction false} Writable(p: Program, w: seq<string>) returns (gs: seq<Group>, tail: Tail)
    requires WellFormed(p)
    ensures AllFit(p, gs, tail) && AllWords(gs, tail) == w
    decreases |w|
  {
    hide WellFormed, Fits, NonOption, Word, Arguments, IsCut;
    gs, tail := [], End;
    if w == [] {
    } else if w[0] == "--" {
      tail := Dashes(w[1..]);
      assert w == ["--"] + w[1..];
    } else if NonOption(p, w[0]) && !p.sign.Minus? && !Permutes(p) {
      tail := Stop(w);
    } else {
      var g := GroupFor(p, w[0], w[1..]);
      assert w == Words(g) + w[|Words(g)|..];
      gs, tail := Writable(p, w[|Words(g)|..]);
      if IsCut(g) {
        assert w[|Words(g)|..] == [];
        NothingWritten(gs, tail);
      }
      gs := [g] + gs;
    }
  }

  lemma NothingWritten(gs: seq<Group>, tail: Tail)
    requires AllWords(gs, tail) == [] && (tail.Stop? ==> tail.rest != [])
    ensures gs == [] && tail == End
  {
  }

  // ... and however it was written, it means the same.
  lemma EveryRun(cfg: Config, p: Program, w: seq<string>, i: nat)
    requires WellFormed(p) && Serves(cfg, p) && i <= |w|
    ensures exists gs, tail :: AllFit(p, gs, tail) && AllWords(gs, tail) == w[i..]
    ensures forall gs, tail | AllFit(p, gs, tail) && AllWords(gs, tail) == w[i..] ::
              Unread(tail) <= |w| && Reading(p, gs, tail, |w|) == Scan(cfg, w, i, "")
  {
    hide WellFormed, Serves, Scan, Reading;
    var gs, tail := Writable(p, w[i..]);
    forall gs, tail | AllFit(p, gs, tail) && AllWords(gs, tail) == w[i..]
      ensures Unread(tail) <= |w| && Reading(p, gs, tail, |w|) == Scan(cfg, w, i, "")
    {
      ReadBack(cfg, p, w, i, gs, tail);
    }
  }
}
