// How a command line is written, and what a program should be told about it.
module OptionWriting {
  import opened Wrappers
  import opened OptionParsing

  // --- What a program declares ---

  // What follows an option letter: nothing, an argument, perhaps an argument in the same
  // word, or a long option.
  datatype Kind = Flag | Required | Optional | LongVia

  datatype Decl = Decl(letter: char, kind: Kind)

  datatype Sign = Unsigned | Plus | Minus

  // quiet is the colon in front of the letters.
  datatype Program = Program(sign: Sign, quiet: bool, decls: seq<Decl>, long: Option<seq<LongOption>>,
    longOnly: bool, permute: bool, posixlyCorrect: bool)

  function Mark(d: Decl): string {
    [d.letter] + match d.kind case Flag => "" case Required => ":" case Optional => "::" case LongVia => ";"
  }

  function Marks(ds: seq<Decl>): string {
    if ds == [] then "" else Mark(ds[0]) + Marks(ds[1..])
  }

  function LetterString(p: Program): string {
    (if p.quiet then ":" else "") + Marks(p.decls)
  }

  // The options string of a program.
  function OptionString(p: Program): string {
    (match p.sign case Unsigned => "" case Plus => "+" case Minus => "-") + LetterString(p)
  }

  // The marks are no letters.
  ghost predicate ProperDecls(ds: seq<Decl>) {
    forall d | d in ds :: d.letter != ':' && d.letter != ';' && (d.kind.LongVia? ==> d.letter == 'W')
  }

  ghost predicate WellFormed(p: Program) {
    && ProperDecls(p.decls)
    && (p.sign.Unsigned? && !p.quiet && p.decls != [] ==> p.decls[0].letter != '+' && p.decls[0].letter != '-')
  }

  ghost predicate Undeclared(ds: seq<Decl>, c: char) {
    forall d | d in ds :: d.letter != c
  }

  // A letter's first declaration is the one that counts.
  predicate Declares(ds: seq<Decl>, c: char, kind: Kind) {
    ds != [] && if ds[0].letter == c then ds[0].kind == kind else Declares(ds[1..], c, kind)
  }

  // The mark behind W is found in the options string too, and passes for a letter.
  ghost predicate HasSemicolon(p: Program) {
    Decl('W', LongVia) in p.decls
  }

  ghost predicate Known(p: Program, c: char) {
    !Undeclared(p.decls, c) || (c == ';' && HasSemicolon(p))
  }

  predicate Permutes(p: Program) {
    p.sign.Unsigned? && p.permute && !p.posixlyCorrect
  }

  // What is returned for a missing or a superfluous argument.
  function Complaint(p: Program): int {
    if p.quiet then ':' as int else '?' as int
  }

  // --- Long options as they are written ---

  // How a long option gets its argument: Cut is one that needs an argument and stands
  // behind all other words.
  datatype Form = Bare | Equals(arg: string) | Next(arg: string) | Cut

  // The text for option number target of the table, or for none.
  datatype Named = Named(text: string, target: Option<nat>, form: Form)

  function Key(u: Named): string {
    if u.form.Equals? then u.text + "=" + u.form.arg else u.text
  }

  function After(u: Named): seq<string> {
    if u.form.Next? then [u.form.arg] else []
  }

  // The text is short for the name of option k: every other name that begins with it
  // comes later and, unless getopt_long_only is at work, means the same.
  ghost predicate ShortFor(p: Program, long: seq<LongOption>, text: string, k: nat) {
    && k < |long| && text <= long[k].name
    && forall j | 0 <= j < |long| && j != k && text <= long[j].name ::
         k < j && text != long[j].name && !p.longOnly && long[j] == long[k].(name := long[j].name)
  }

  ghost predicate NameOf(p: Program, long: seq<LongOption>, text: string, shortToo: bool, k: nat) {
    || (k < |long| && long[k].name == text && forall j | 0 <= j < k :: long[j].name != text)
    || (ShortFor(p, long, text, k) && !(shortToo && |text| == 1))
  }

  // The text names nothing: no name begins with it, or two that mean different things.
  ghost predicate NameOfNone(p: Program, long: seq<LongOption>, text: string, shortToo: bool) {
    || (!shortToo && forall j | 0 <= j < |long| :: !(text <= long[j].name))
    || (&& !(shortToo && |text| == 1)
        && (forall j | 0 <= j < |long| :: text != long[j].name)
        && exists i, j ::
             && 0 <= i < j < |long| && text <= long[i].name && text <= long[j].name
             && (p.longOnly || long[j] != long[i].(name := long[j].name)))
  }

  // The form fits what the option takes.
  predicate FormFits(form: Form, hasArg: int) {
    match form
    case Bare => hasArg != REQUIRED_ARGUMENT
    case Equals(_) => true
    case Next(_) => hasArg == REQUIRED_ARGUMENT
    case Cut => hasArg == REQUIRED_ARGUMENT
  }

  // shortToo says that the text starts with a known letter behind one dash; such a letter
  // alone is no abbreviation.
  ghost predicate Names(p: Program, u: Named, shortToo: bool) {
    && p.long.Some? && '=' !in u.text
    && match u.target
       case Some(k) => && NameOf(p, p.long.value, u.text, shortToo, k)
                       && FormFits(u.form, p.long.value[k].hasArg)
       case None => NameOfNone(p, p.long.value, u.text, shortToo) && (u.form.Bare? || u.form.Equals?)
  }

  // What the caller should be told of it.
  ghost function NamedEvent(p: Program, u: Named): Event
    requires p.long.Some? && (u.target.Some? ==> u.target.value < |p.long.value|)
  {
    match u.target
    case None => Event('?' as int, None, Some(0), None, None)
    case Some(k) =>
      var o := p.long.value[k];
      if u.form.Cut? || (u.form.Equals? && o.hasArg == NO_ARGUMENT) then
        Event(Complaint(p), None, Some(if o.flag.None? then o.val else 0), None, None)
      else
        var takes := o.hasArg == REQUIRED_ARGUMENT || o.hasArg == OPTIONAL_ARGUMENT;
        var arg := match u.form
                   case Equals(a) => if takes then Some(a) else None
                   case Next(a) => Some(a)
                   case _ => None;
        match o.flag
        case None => Event(o.val, arg, None, Some(k), None)
        case Some(f) => Event(0, arg, None, Some(k), Some((f, o.val)))
  }

  // --- Letters as they are written ---

  // What may end the letters of a word: nothing more; a letter with its argument, in the
  // same word or in the next; one whose argument is absent, or missing at the end of all
  // words; the letter W and a long option, in the same word or in the next; or a long
  // option behind a second dash or, for getopt_long_only, behind none.
  datatype Ending =
    | Alone
    | Attached(letter: char, arg: string)
    | Spaced(letter: char, arg: string)
    | Absent(letter: char)
    | Missing(letter: char)
    | Via(named: Named)
    | ViaSpaced(named: Named)
    | ViaMissing
    | Double(named: Named)
    | Single(named: Named)

  function EndText(e: Ending): string {
    match e
    case Alone => ""
    case Attached(c, arg) => [c] + arg
    case Spaced(c, _) => [c]
    case Absent(c) => [c]
    case Missing(c) => [c]
    case Via(u) => "W" + Key(u)
    case ViaSpaced(_) => "W"
    case ViaMissing => "W"
    case Double(u) => "-" + Key(u)
    case Single(u) => Key(u)
  }

  function EndWords(e: Ending): seq<string> {
    match e
    case Spaced(_, arg) => [arg]
    case Via(u) => After(u)
    case ViaSpaced(u) => [Key(u)] + After(u)
    case Double(u) => After(u)
    case Single(u) => After(u)
    case _ => []
  }

  predicate EndCut(e: Ending) {
    match e
    case Missing(_) => true
    case Via(u) => u.form.Cut?
    case ViaSpaced(u) => u.form.Cut?
    case ViaMissing => true
    case Double(u) => u.form.Cut?
    case Single(u) => u.form.Cut?
    case _ => false
  }

  predicate IsLong(e: Ending) {
    e.Double? || e.Single?
  }

  ghost predicate EndFits(p: Program, e: Ending) {
    match e
    case Alone => true
    case Attached(c, arg) => arg != "" && (Declares(p.decls, c, Required) || Declares(p.decls, c, Optional))
    case Spaced(c, _) => Declares(p.decls, c, Required)
    case Absent(c) => Declares(p.decls, c, Optional)
    case Missing(c) => Declares(p.decls, c, Required)
    case Via(u) => Declares(p.decls, 'W', LongVia) && Key(u) != "" && Names(p, u, false)
    case ViaSpaced(u) => Declares(p.decls, 'W', LongVia) && Names(p, u, false)
    case ViaMissing => Declares(p.decls, 'W', LongVia) && p.long.Some?
    case Double(u) => Names(p, u, false)
    case Single(u) => p.longOnly && Key(u) != "" && Key(u)[0] != '-' && Names(p, u, Known(p, Key(u)[0]))
  }

  ghost function EndEvent(p: Program, e: Ending): Event
    requires EndFits(p, e) && !e.Alone?
  {
    match e
    case Attached(c, arg) => Event(c as int, Some(arg), None, None, None)
    case Spaced(c, arg) => Event(c as int, Some(arg), None, None, None)
    case Absent(c) => Event(c as int, None, None, None, None)
    case Missing(c) => Event(Complaint(p), None, Some(c as int), None, None)
    case Via(u) => NamedEvent(p, u)
    case ViaSpaced(u) => NamedEvent(p, u)
    case ViaMissing => Event(Complaint(p), None, Some('W' as int), None, None)
    case Double(u) => NamedEvent(p, u)
    case Single(u) => NamedEvent(p, u)
  }

  ghost function EndEvents(p: Program, e: Ending): seq<Event>
    requires EndFits(p, e)
  {
    if e.Alone? then [] else [EndEvent(p, e)]
  }

  // A letter that takes no argument.
  ghost predicate IsFlag(p: Program, c: char) {
    || Declares(p.decls, c, Flag)
    || (Declares(p.decls, c, LongVia) && p.long.None?)
    || (c == ';' && HasSemicolon(p))
  }

  // Such a letter, or one that the program does not know.
  ghost predicate FlagFits(p: Program, c: char) {
    IsFlag(p, c) || c == ':' || !Known(p, c)
  }

  ghost predicate FlagsFit(p: Program, flags: string) {
    forall c | c in flags :: FlagFits(p, c)
  }

  ghost function FlagEvent(p: Program, c: char): Event {
    if IsFlag(p, c) then Event(c as int, None, None, None, None)
    else Event('?' as int, None, Some(c as int), None, None)
  }

  // The text is taken for a letter and what follows: it does not start with a second
  // dash, and for getopt_long_only it is a known letter and not the name of a long option.
  ghost predicate TakenAsLetter(p: Program, text: string)
    requires text != ""
  {
    p.long.Some? ==>
      && text[0] != '-'
      && (p.longOnly ==> Known(p, text[0]) && NoName(p.long.value, Before(text, '=')))
  }

  function Before(text: string, c: char): string {
    var k := IndexOf(text, c);
    if k < 0 then text else text[..k]
  }

  // A known letter alone does not abbreviate a name.
  ghost predicate NoName(long: seq<LongOption>, name: string) {
    forall j | 0 <= j < |long| && name <= long[j].name :: |name| == 1 && name != long[j].name
  }

  // Every letter of the word is taken for one.
  ghost predicate AllLetters(p: Program, flags: string, e: Ending) {
    if flags == "" then e.Alone? || IsLong(e) || (EndText(e) != "" && TakenAsLetter(p, EndText(e)))
    else TakenAsLetter(p, flags + EndText(e)) && AllLetters(p, flags[1..], e)
  }

  ghost function LetterEvents(p: Program, flags: string, e: Ending): seq<Event>
    requires EndFits(p, e)
  {
    if flags == "" then EndEvents(p, e) else [FlagEvent(p, flags[0])] + LetterEvents(p, flags[1..], e)
  }

  // --- Whole command lines ---

  // Words that belong together: letters behind a dash, with an argument perhaps, or, not
  // lead, the dash itself as a letter; or a word that is no option.
  datatype Group =
    | Opt(lead: bool, flags: string, end: Ending)
    | Plain(word: string)

  function Word(g: Group): string {
    match g
    case Opt(lead, flags, e) => (if lead then "-" else "") + (flags + EndText(e))
    case Plain(word) => word
  }

  function Arguments(g: Group): seq<string> {
    if g.Opt? then EndWords(g.end) else []
  }

  function Words(g: Group): seq<string> {
    [Word(g)] + Arguments(g)
  }

  predicate IsCut(g: Group) {
    g.Opt? && EndCut(g.end)
  }

  ghost predicate NonOption(p: Program, word: string) {
    word == "" || word[0] != '-' || (word == "-" && Undeclared(p.decls, '-'))
  }

  ghost predicate Fits(p: Program, g: Group) {
    match g
    case Opt(lead, flags, e) =>
      && FlagsFit(p, flags) && EndFits(p, e) && flags + EndText(e) != ""
      && if lead then flags + EndText(e) != "-" && AllLetters(p, flags, e)
         else flags + EndText(e) == "-" && !IsLong(e) && !Undeclared(p.decls, '-')
    case Plain(word) => NonOption(p, word) && (p.sign.Minus? || Permutes(p))
  }

  ghost function Events(p: Program, g: Group): seq<Event>
    requires Fits(p, g)
  {
    match g
    case Opt(_, flags, e) => LetterEvents(p, flags, e)
    case Plain(word) => if p.sign.Minus? then [Event(1, Some(word), None, None, None)] else []
  }

  function Taken(p: Program, g: Group): seq<string> {
    if g.Plain? && !p.sign.Minus? then [] else Words(g)
  }

  function Skipped(p: Program, g: Group): seq<string> {
    if g.Plain? && !p.sign.Minus? then [g.word] else []
  }

  // How the words go on behind the groups: not at all, with a double dash, or, where
  // nothing is passed over, with the first word that is no option.
  datatype Tail = End | Dashes(rest: seq<string>) | Stop(rest: seq<string>)

  function TailWords(tail: Tail): seq<string> {
    match tail case End => [] case Dashes(rest) => ["--"] + rest case Stop(rest) => rest
  }

  ghost predicate TailFits(p: Program, tail: Tail) {
    tail.Stop? ==> !p.sign.Minus? && !Permutes(p) && tail.rest != [] && NonOption(p, tail.rest[0])
  }

  function AllWords(gs: seq<Group>, tail: Tail): seq<string> {
    if gs == [] then TailWords(tail) else Words(gs[0]) + AllWords(gs[1..], tail)
  }

  // Only at the end of all words can an argument be missing.
  ghost predicate AllFit(p: Program, gs: seq<Group>, tail: Tail) {
    if gs == [] then TailFits(p, tail)
    else Fits(p, gs[0]) && (IsCut(gs[0]) ==> gs[1..] == [] && tail.End?) && AllFit(p, gs[1..], tail)
  }

  ghost function AllEvents(p: Program, gs: seq<Group>, tail: Tail): seq<Event>
    requires AllFit(p, gs, tail)
  {
    if gs == [] then [] else Events(p, gs[0]) + AllEvents(p, gs[1..], tail)
  }

  function AllTaken(p: Program, gs: seq<Group>, tail: Tail): seq<string> {
    if gs == [] then if tail.Dashes? then ["--"] else []
    else Taken(p, gs[0]) + AllTaken(p, gs[1..], tail)
  }

  function AllSkipped(p: Program, gs: seq<Group>): seq<string> {
    if gs == [] then [] else Skipped(p, gs[0]) + AllSkipped(p, gs[1..])
  }

  predicate AnyCut(gs: seq<Group>) {
    exists g | g in gs :: IsCut(g)
  }

  function Unread(tail: Tail): nat {
    if tail.End? then 0 else |tail.rest|
  }

  // What a run should be that starts where these groups and this tail begin.
  ghost function Reading(p: Program, gs: seq<Group>, tail: Tail, end: nat): Run
    requires AllFit(p, gs, tail) && Unread(tail) <= end
  {
    Run(AllEvents(p, gs, tail), AllTaken(p, gs, tail), AllSkipped(p, gs), end - Unread(tail), tail.Dashes?, AnyCut(gs))
  }
}
