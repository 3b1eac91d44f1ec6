/** The format machine of the loader's printf: nine states walked along the format string. */
module Format {
  import opened Common
  import opened Digits
  import opened Printf

  datatype State = Seeking | Next | Percent | F | FW | FWP | FWPh | FWPl | FWPL

  datatype Arg = Number(n: int) | Text(s: string)

  /** `stores` are the counts that %n has stored. */
  datatype Machine = Machine(state: State, params: Params, args: seq<Arg>, out: string, stores: seq<nat>)

  /** Undefined: an argument is missing or of another kind. */
  datatype Outcome = Go(machine: Machine, advance: bool) | Failed(out: string) | Undefined

  /** Endless: the loop does not end. */
  datatype Result = Finished(out: string, stores: seq<nat>) | Error(out: string) | NoResult | Endless

  const NO_FLAGS :=
    Flags(false, false, false, false, false, false, false, false, false, false, false, false, false, false)
  const FRESH := Params(NO_FLAGS, 0, 1, 10)

  /** A nested call that prints a message ends it with a null character like every call. */
  function Message(s: string): string { s + "\0" }

  /** validate_ascii_7_bit */
  predicate Printable(c: char) {
    var n := c as int;
    !(1 <= n <= 6) && !(0x0e <= n <= 0x1f) && n != 0x7f && n < 0x80
  }

  predicate IsUnsigned(c: char) { c == 'o' || c == 'u' || c == 'x' || c == 'X' }

  predicate IsInteger(c: char) { IsUnsigned(c) || c == 'd' || c == 'i' }

  /** The specifiers FWPL handles with an argument. */
  predicate IsConversion(c: char) { IsInteger(c) || c == 'p' || c == 'c' || c == 's' || c == 'n' }

  predicate IsModifier(c: char) {
    c == 'h' || c == 'l' || c == 'L' || c == 'j' || c == 'z' || c == 't' || c == 'q' || c == 'Z'
  }

  predicate IsMark(c: char) { c == '#' || c == '0' || c == '-' || c == ' ' || c == '+' }

  predicate IsDigit(c: char) { '0' <= c <= '9' }

  function Take(m: Machine): Machine
    requires m.args != []
  {
    m.(args := m.args[1..])
  }

  function Flag(m: Machine, flags: Flags): Outcome { Go(m.(params := m.params.(flags := flags)), true) }

  function StepSeeking(m: Machine, c: char): Outcome {
    if c == '%' then Go(m.(state := Percent, params := FRESH), true)
    else if !Printable(c) then Failed(m.out + Message("\n--ERROR-- non ascii string\n"))
    else Go(m.(out := m.out + [c]), true)
  }

  function StepNext(m: Machine, c: char): Outcome {
    if IsConversion(c) || c == 'S' || c == 'C' then Go(m.(state := FWPL), false)
    else if IsModifier(c) then Go(m.(state := FWP), false)
    else if c == '.' then Go(m.(state := FW), false)
    else if c == '*' || '1' <= c <= '9' then Go(m.(state := F), false)
    else Failed(m.out + Message("\n--ERROR-- Invalid conversion specifier.\n"))
  }

  function StepPercent(m: Machine, c: char): Outcome {
    var f := m.params.flags;
    if c == '%' then Go(m.(state := Seeking, out := m.out + "%"), true)
    else if c == '#' then Flag(m, f.(alternate := true))
    else if c == '0' then Flag(m, f.(zero := true))
    else if c == '-' then Flag(m, f.(adjusted := true))
    else if c == ' ' then Flag(m, f.(space := true))
    else if c == '+' then Flag(m, f.(plus := true))
    else Go(m.(state := Next), false)
  }

  predicate HasNumber(m: Machine) { m.args != [] && m.args[0].Number? }

  /** A dot: a precision is given, zero so far. */
  function Dotted(p: Params): (r: Params)
    ensures r.flags.jzt == p.flags.jzt
  {
    p.(precision := 0, flags := p.flags.(precision := true))
  }

  /** A negative width argument means left-justified. */
  function WithWidth(p: Params, w: int): (r: Params)
    ensures r.flags.jzt == p.flags.jzt
  {
    p.(width := if w < 0 then -w else w, flags := p.flags.(adjusted := p.flags.adjusted || w < 0))
  }

  /** A negative precision argument means none. */
  function WithPrecision(p: Params, n: int): (r: Params)
    ensures r.flags.jzt == p.flags.jzt
  {
    p.(precision := if n < 0 then 1 else n, flags := p.flags.(precision := n >= 0))
  }

  function StepF(m: Machine, c: char): Outcome {
    if c == '*' then
      if !HasNumber(m) then Undefined
      else Go(Take(m).(state := FW, params := WithWidth(m.params, m.args[0].n)), true)
    else if c == '$' then
      Failed(m.out + Message("\n--ERROR-- The SUS *m$-style width length not supported.\n"))
    else if IsDigit(c) then
      Go(m.(params := m.params.(width := m.params.width * 10 + (c as int - '0' as int))), true)
    else Go(m.(state := Next), false)
  }

  /** The case of '$' prints its message and stays where it is. */
  function StepFW(m: Machine, c: char): Outcome {
    if c == '.' then Go(m.(params := Dotted(m.params)), true)
    else if IsDigit(c) then
      Go(m.(params := m.params.(precision := m.params.precision * 10 + (c as int - '0' as int))), true)
    else if c == '*' then
      if !HasNumber(m) then Undefined
      else Go(Take(m).(state := FWP, params := WithPrecision(m.params, m.args[0].n)), true)
    else if c == '$' then
      Go(m.(out := m.out + Message("\n--ERROR-- The SUS *m$-style precision length not supported.\n")), false)
    else Go(m.(state := Next), false)
  }

  function StepFWP(m: Machine, c: char): Outcome {
    if c == 'h' then Go(m.(state := FWPh), true)
    else if c == 'l' then Go(m.(state := FWPl), true)
    else if c == 'L' then Failed(m.out + Message("\n--ERROR--\"L\": floating-point support not implemented\n"))
    else if c == 'j' || c == 'z' || c == 't' then Flag(m, m.params.flags.(jzt := true))
    else if c == 'q' then
      Failed(m.out + Message("\n--ERROR--\"q\": unsupported length modifier (\"quad\" BSD 4.4 and libc5)\n"))
    else if c == 'Z' then
      Go(m.(params := m.params.(flags := m.params.flags.(jzt := true)),
            out := m.out + Message("\n--ERROR-\"Z\": use z instead\n")), true)
    else Go(m.(state := Next), false)
  }

  function StepFWPh(m: Machine, c: char): Outcome {
    var f := m.params.flags;
    if c == 'h' then Go(m.(state := FWPL, params := m.params.(flags := f.(hh := true))), true)
    else Go(m.(state := Next, params := m.params.(flags := f.(h := true))), false)
  }

  function StepFWPl(m: Machine, c: char): Outcome {
    var f := m.params.flags;
    if c == 'l' then Go(m.(state := FWPL, params := m.params.(flags := f.(ll := true))), true)
    else Go(m.(state := Next, params := m.params.(flags := f.(l := true))), false)
  }

  /** Without the C library's headers, 'j', 'z' and 't' read no argument and stand for zero. */
  predicate ReadsArgument(f: Flags) { f.ll || f.l || !f.jzt }

  function SignedByte(n: int): int { (n + 0x80) % 0x100 - 0x80 }
  function SignedShort(n: int): int { (n + 0x8000) % 0x1_0000 - 0x8000 }
  function SignedInt(n: int): int { (n + 0x8000_0000) % 0x1_0000_0000 - 0x8000_0000 }
  function SignedLong(n: int): int { (n + 0x8000_0000_0000_0000) % TWO_64 - 0x8000_0000_0000_0000 }

  /** read_unsigned_int and apply_unsigned_length_modifier, for an argument n */
  function UnsignedOf(f: Flags, n: int): nat {
    var v := if f.ll || f.l then n % TWO_64 else if f.jzt then 0 else n % 0x1_0000_0000;
    if f.h then v % 0x1_0000 else if f.hh then v % 0x100 else v
  }

  /** read_signed_int and apply_signed_length_modifier, for an argument n */
  function SignedOf(f: Flags, n: int): int {
    var v := if f.ll || f.l then SignedLong(n) else if f.jzt then 0 else SignedInt(n);
    if f.h then SignedShort(v) else if f.hh then SignedByte(v) else v
  }

  /** %s: up to `precision` characters when one was given; None when one is not ASCII. */
  function Characters(s: string, f: Flags, precision: int): (string, bool) {
    if s == [] then ([], true)
    else if !Printable(s[0]) then ([], false)
    else if f.precision && precision == 0 then ([], true)
    else
      var (rest, ok) := Characters(s[1..], f, precision - 1);
      ([s[0]] + rest, ok)
  }

  /** The conversions of unsigned numbers. */
  function ConversionParams(p: Params, c: char): (r: Params)
    requires IsUnsigned(c)
    ensures r.base >= 2
  {
    var f := p.flags;
    p.(flags := f.(octal := f.octal || c == 'o', lower := f.lower || c == 'x', upper := f.upper || c == 'X'),
       base := if c == 'o' then 8 else if c == 'u' then 10 else 16)
  }

  /** What an integer conversion writes for an argument n. */
  function IntegerText(p: Params, c: char, n: int): string
    requires IsInteger(c)
  {
    if IsUnsigned(c) then Written(ConversionParams(p, c), UnsignedOf(p.flags, n))
    else WrittenSigned(p.(base := 10), SignedOf(p.flags, n))
  }

  function Convert(m: Machine, text: string): Outcome
    requires m.args != []
  {
    Go(Take(m).(state := Seeking, out := m.out + text), true)
  }

  function StepInteger(m: Machine, c: char): Outcome
    requires IsInteger(c)
  {
    if !ReadsArgument(m.params.flags) then
      Go(m.(state := Seeking, out := m.out + IntegerText(m.params, c, 0)), true)
    else if HasNumber(m) then Convert(m, IntegerText(m.params, c, m.args[0].n))
    else Undefined
  }

  function PointerParams(p: Params): Params { p.(flags := p.flags.(lower := true, alternate := true), base := 16) }

  /** What %p writes for an address. */
  function PointerText(p: Params, address: int): string {
    if address == 0 then "(nil)"
    else Written(PointerParams(p), address % TWO_64)
  }

  function StepFWPL(m: Machine, c: char): Outcome {
    if IsInteger(c) then StepInteger(m, c)
    else if IsConversion(c) && m.args == [] then Undefined
    else if c == 'p' then
      if !m.args[0].Number? then Undefined
      else Convert(m, PointerText(m.params, m.args[0].n))
    else if c == 'c' then
      if !m.args[0].Number? then Undefined
      else if !Printable((m.args[0].n % 256) as char) then Failed(m.out + Message("\n--ERROR-- non ascii string\n"))
      else Convert(m, [(m.args[0].n % 256) as char])
    else if c == 's' then
      if !m.args[0].Text? then Undefined
      else
        var (text, ok) := Characters(m.args[0].s, m.params.flags, m.params.precision);
        if ok then Convert(m, text) else Failed(m.out + text + Message("\n--ERROR-- non ascii string\n"))
    else if c == 'n' then
      if !m.args[0].Number? then Undefined
      else if m.args[0].n == 0 then Failed(m.out + Message("\n--ERROR-- invalid NULL n pointer.\n"))
      else Go(Take(m).(state := Seeking, stores := m.stores + [|m.out|]), true)
    else if c == 'S' then Failed(m.out + Message("\n--ERROR--\"S\": Synonym for ls: do not use.\n"))
    else if c == 'C' then Failed(m.out + Message("\n--ERROR--\"C\": Synonym for lc: do not use.\n"))
    else if c in "eEfFgGaA" then
      Failed(m.out + Message("\n--ERROR-- floating-point conversion specifiers not implemented.\n"))
    else Failed(m.out + Message("\n--ERROR-- invalid conversion specifier.\n"))
  }

  function Step(m: Machine, c: char): Outcome {
    match m.state
    case Seeking => StepSeeking(m, c)
    case Next => StepNext(m, c)
    case Percent => StepPercent(m, c)
    case F => StepF(m, c)
    case FW => StepFW(m, c)
    case FWP => StepFWP(m, c)
    case FWPh => StepFWPh(m, c)
    case FWPl => StepFWPl(m, c)
    case FWPL => StepFWPL(m, c)
  }

  // ----- the loop

  /** How many more steps may pass before character c is consumed. */
  function Rank(s: State, c: char): nat {
    match s
    case Seeking => 0
    case Next => 1
    case Percent => if c == '%' || IsMark(c) then 0 else 2
    case F => if c == '*' || c == '$' || IsDigit(c) then 0 else 2
    case FW => if c == '.' || c == '*' || IsDigit(c) then 0 else 2
    case FWP => if IsModifier(c) then 0 else 2
    case FWPh => if c == 'h' then 0 else 2
    case FWPl => if c == 'l' then 0 else 2
    case FWPL => 0
  }

  /** What a step does to the state alone. */
  datatype Turn = Moves(state: State, advance: bool) | Stops

  function TurnOf(state: State, c: char): Turn {
    match state
    case Seeking => if c == '%' then Moves(Percent, true) else if Printable(c) then Moves(Seeking, true) else Stops
    case Next =>
      if IsConversion(c) || c == 'S' || c == 'C' then Moves(FWPL, false)
      else if IsModifier(c) then Moves(FWP, false)
      else if c == '.' then Moves(FW, false)
      else if c == '*' || '1' <= c <= '9' then Moves(F, false) else Stops
    case Percent =>
      if c == '%' then Moves(Seeking, true) else if IsMark(c) then Moves(Percent, true) else Moves(Next, false)
    case F =>
      if c == '*' then Moves(FW, true) else if c == '$' then Stops
      else if IsDigit(c) then Moves(F, true) else Moves(Next, false)
    case FW =>
      if c == '.' || IsDigit(c) then Moves(FW, true) else if c == '*' then Moves(FWP, true)
      else if c == '$' then Moves(FW, false) else Moves(Next, false)
    case FWP =>
      if c == 'h' then Moves(FWPh, true) else if c == 'l' then Moves(FWPl, true)
      else if c == 'L' || c == 'q' then Stops else if IsModifier(c) then Moves(FWP, true) else Moves(Next, false)
    case FWPh => if c == 'h' then Moves(FWPL, true) else Moves(Next, false)
    case FWPl => if c == 'l' then Moves(FWPL, true) else Moves(Next, false)
    case FWPL => if IsConversion(c) then Moves(Seeking, true) else Stops
  }

  predicate Turns(o: Outcome, turn: Turn) { o.Go? ==> turn == Moves(o.machine.state, o.advance) }

  lemma FlagTurns(m: Machine, c: char)
    requires m.state == Seeking || m.state == Next || m.state == Percent
    ensures Turns(Step(m, c), TurnOf(m.state, c))
  {
  }

  lemma WidthTurns(m: Machine, c: char)
    requires m.state == F || m.state == FW
    ensures Turns(Step(m, c), TurnOf(m.state, c))
  {
  }

  lemma LengthTurns(m: Machine, c: char)
    requires m.state == FWP || m.state == FWPh || m.state == FWPl
    ensures Turns(Step(m, c), TurnOf(m.state, c))
  {
  }

  lemma ConversionTurns(m: Machine, c: char)
    requires m.state == FWPL
    ensures Turns(Step(m, c), TurnOf(m.state, c))
  {
  }

  lemma StepTurns(m: Machine, c: char)
    ensures Turns(Step(m, c), TurnOf(m.state, c))
  {
    match m.state
    case Seeking | Next | Percent => FlagTurns(m, c);
    case F | FW => WidthTurns(m, c);
    case FWP | FWPh | FWPl => LengthTurns(m, c);
    case FWPL => ConversionTurns(m, c);
  }

  lemma TurnProgresses(state: State, c: char)
    requires TurnOf(state, c).Moves? && !(state == FW && c == '$')
    ensures TurnOf(state, c).advance || Rank(TurnOf(state, c).state, c) < Rank(state, c)
  {
  }

  /** The one place where the machine neither consumes a character nor changes its state. */
  predicate AtDollar(state: State, s: string) { s != [] && state == FW && s[0] == '$' }

  /** Everywhere else a step consumes its character or comes closer to doing so. */
  lemma StepProgresses(m: Machine, c: char)
    requires Step(m, c).Go? && !(m.state == FW && c == '$')
    ensures Step(m, c).advance || Rank(Step(m, c).machine.state, c) < Rank(m.state, c)
  {
    StepTurns(m, c);
    TurnProgresses(m.state, c);
  }

  /** What the format writes. */
  function Render(m: Machine, s: string): Result
    decreases |s|, if s == [] then 0 else Rank(m.state, s[0])
  {
    if s == [] then Finished(m.out + "\0", m.stores)
    else if AtDollar(m.state, s) then Endless
    else
      match Step(m, s[0])
      case Undefined => NoResult
      case Failed(out) => Error(out + Message("Error during parsing.\n"))
      case Go(m', advance) =>
        StepProgresses(m, s[0]);
        Render(m', if advance then s[1..] else s)
  }

  function Start(args: seq<Arg>): Machine { Machine(Seeking, FRESH, args, "", []) }

  // ----- when the loop ends

  /** The loop between two tests of its condition. */
  datatype Config = Running(machine: Machine, s: string) | Over(result: Result)

  function Iterate(c: Config): Config {
    match c
    case Over(_) => c
    case Running(m, s) =>
      if s == [] then Over(Finished(m.out + "\0", m.stores))
      else
        match Step(m, s[0])
        case Undefined => Over(NoResult)
        case Failed(out) => Over(Error(out + Message("Error during parsing.\n")))
        case Go(m', advance) => Running(m', if advance then s[1..] else s)
  }

  function After(c: Config, n: nat): Config
    decreases n
  {
    if n == 0 then c else After(Iterate(c), n - 1)
  }

  /** Some number of iterations brings the loop to its end. */
  ghost predicate Ends(m: Machine, s: string) {
    exists n: nat :: After(Running(m, s), n).Over?
  }

  /** Walking the format from a state, the machine comes to stand at '$' in a precision. */
  predicate MeetsDollar(state: State, s: string)
    decreases |s|, if s == [] then 0 else Rank(state, s[0])
  {
    AtDollar(state, s) ||
    (s != [] &&
     match TurnOf(state, s[0])
     case Stops => false
     case Moves(state', advance) =>
       TurnProgresses(state, s[0]);
       MeetsDollar(state', if advance then s[1..] else s))
  }

  /** The arguments carry the walk as far as the format does: none is missing, of another kind, or refused. */
  predicate Suits(m: Machine, s: string)
    decreases |s|, if s == [] then 0 else Rank(m.state, s[0])
  {
    s == [] || AtDollar(m.state, s) ||
    match Step(m, s[0])
    case Go(m', advance) =>
      StepProgresses(m, s[0]);
      Suits(m', if advance then s[1..] else s)
    case _ => TurnOf(m.state, s[0]).Stops?
  }

  lemma {:induction false} EndlessExactly(m: Machine, s: string)
    ensures Render(m, s) == Endless <==> MeetsDollar(m.state, s) && Suits(m, s)
    decreases |s|, if s == [] then 0 else Rank(m.state, s[0])
  {
    if s != [] && !AtDollar(m.state, s) && Step(m, s[0]).Go? {
      StepProgresses(m, s[0]);
      StepTurns(m, s[0]);
      EndlessExactly(Step(m, s[0]).machine, if Step(m, s[0]).advance then s[1..] else s);
    }
  }

  /** An iteration keeps what the format writes, and comes closer to the end. */
  lemma IterateKeeps(m: Machine, s: string)
    requires Render(m, s) != Endless
    ensures Iterate(Running(m, s)).Over? ==> Iterate(Running(m, s)).result == Render(m, s)
    ensures Iterate(Running(m, s)).Running? ==>
              var c := Iterate(Running(m, s));
              s != [] && Render(c.machine, c.s) == Render(m, s) &&
              (|c.s| < |s| || (c.s == s && Rank(c.machine.state, s[0]) < Rank(m.state, s[0])))
  {
    if s != [] && Step(m, s[0]).Go? {
      StepProgresses(m, s[0]);
    }
  }

  lemma {:induction false} RenderEnds(m: Machine, s: string) returns (n: nat)
    requires Render(m, s) != Endless
    ensures After(Running(m, s), n) == Over(Render(m, s))
    decreases |s|, if s == [] then 0 else Rank(m.state, s[0])
  {
    var c := Iterate(Running(m, s));
    IterateKeeps(m, s);
    if c.Running? {
      n := RenderEnds(c.machine, c.s);
      n := n + 1;
    } else {
      n := 1;
      assert After(c, 0) == c;
    }
  }

  predicate Stuck(c: Config) { c.Running? && Render(c.machine, c.s) == Endless }

  lemma StuckStays(c: Config)
    requires Stuck(c)
    ensures Stuck(Iterate(c))
  {
    StepTurns(c.machine, c.s[0]);
  }

  /** What every iteration keeps keeps the loop running. */
  lemma {:induction false} KeptRunning(kept: Config -> bool, c: Config, n: nat)
    requires forall d :: kept(d) ==> d.Running? && kept(Iterate(d))
    requires kept(c)
    ensures After(c, n).Running?
    decreases n
  {
    if n > 0 {
      KeptRunning(kept, Iterate(c), n - 1);
    }
  }

  lemma StuckRuns(c: Config, n: nat)
    requires Stuck(c)
    ensures After(c, n).Running?
  {
    forall d | Stuck(d) ensures Stuck(Iterate(d)) {
      StuckStays(d);
    }
    KeptRunning(d => Stuck(d), c, n);
  }

  lemma EndsUnlessEndless(m: Machine, s: string)
    ensures Ends(m, s) <==> Render(m, s) != Endless
  {
    if Render(m, s) != Endless {
      var n := RenderEnds(m, s);
    } else {
      forall n: nat ensures After(Running(m, s), n).Running? {
        StuckRuns(Running(m, s), n);
      }
    }
  }

  /** The loop ends unless the walk of the format meets '$' in a precision and the arguments carry it there. */
  lemma LoopEndsExactly(m: Machine, s: string)
    ensures Ends(m, s) <==> !(MeetsDollar(m.state, s) && Suits(m, s))
  {
    EndlessExactly(m, s);
    EndsUnlessEndless(m, s);
  }

  /** "%.$" never ends, whatever the arguments. */
  lemma DollarInPrecisionLoops(args: seq<Arg>)
    ensures MeetsDollar(Seeking, "%.$") && Suits(Start(args), "%.$") && !Ends(Start(args), "%.$")
  {
    var m, s := Start(args), "%.$";
    assert s[1..] == ".$" && ".$"[1..] == "$";
    var m1 := m.(state := Percent);
    var m2, m3, m4 := m1.(state := Next), m1.(state := FW),
                      m1.(state := FW, params := FRESH.(precision := 0, flags := NO_FLAGS.(precision := true)));
    assert Step(m, '%') == Go(m1, true) && Step(m1, '.') == Go(m2, false);
    assert Step(m2, '.') == Go(m3, false) && Step(m3, '.') == Go(m4, true);
    assert Render(m4, "$") == Endless;
    assert Render(m3, ".$") == Endless;
    assert Render(m2, ".$") == Endless;
    assert Render(m1, ".$") == Endless;
    EndlessExactly(m, s);
    LoopEndsExactly(m, s);
  }

  lemma WithoutDollarEnds(s: string, args: seq<Arg>)
    requires !MeetsDollar(Seeking, s)
    ensures Ends(Start(args), s)
  {
    LoopEndsExactly(Start(args), s);
  }

  /** A '$' in plain text does no harm. */
  lemma {:induction false} DollarInTextPasses(s: string)
    requires forall i :: 0 <= i < |s| ==> s[i] != '%'
    ensures !MeetsDollar(Seeking, s)
  {
    if s != [] {
      DollarInTextPasses(s[1..]);
    }
  }

  /** A '$' after a width is an error. */
  lemma DollarAfterWidthEnds(args: seq<Arg>)
    ensures Ends(Start(args), "%5$d")
  {
    assert "%5$d"[1..] == "5$d" && "5$d"[1..] == "$d";
    assert !MeetsDollar(F, "$d") && !MeetsDollar(F, "5$d") && !MeetsDollar(Next, "5$d");
    WithoutDollarEnds("%5$d", args);
  }

  /** avprintf_cb, on the formats and arguments for which its loop ends */
  method AvprintfCb(str: string, args: seq<Arg>) returns (result: Result)
    requires !MeetsDollar(Seeking, str) || !Suits(Start(args), str)
    ensures result == Render(Start(args), str) && result != Endless
  {
    EndlessExactly(Start(args), str);
    var m := Start(args);
    var i := 0;
    while i < |str|
      invariant i <= |str| && Render(m, str[i..]) == Render(Start(args), str) != Endless
      decreases |str| - i, if i < |str| then Rank(m.state, str[i]) else 0
    {
      assert str[i..][1..] == str[i + 1..];
      match Step(m, str[i]) {
        case Undefined =>
          return NoResult;
        case Failed(out) =>
          return Error(out + Message("Error during parsing.\n"));
        case Go(m', advance) =>
          StepProgresses(m, str[i]);
          m := m';
          if advance {
            i := i + 1;
          }
      }
    }
    return Finished(m.out + "\0", m.stores);
  }
}
