/** The text form of light scripts: library/Script.cpp with the commands of library/FwCommand.h and
    firmware/wifly_cmd.h. */
module ScriptText {
  import opened NumberText
  import opened Streams

  const SIZE_T: nat := 0x1_0000_0000_0000_0000

  /** The fields of a script command's frame. The parallel bit and the offset of a gradient share a byte. */
  datatype Command =
    | Fade(addr: nat, color: nat, time: nat, parallel: bool)
    | Gradient(first: nat, last: nat, time: nat, parallel: bool, offset: nat, length: nat)
    | Wait(time: nat)
    | LoopOn
    | LoopOff(numLoops: nat)

  /** The widths of the fields. */
  predicate InFields(c: Command) {
    match c
    case Fade(addr, color, time, _) => addr < 0x1_0000_0000 && color < 0x100_0000 && time < 0x10000
    case Gradient(first, last, time, _, offset, length) =>
      first < 0x100_0000 && last < 0x100_0000 && time < 0x10000 && offset < 0x80 && length < 0x100
    case Wait(time) => time < 0x10000
    case LoopOn => true
    case LoopOff(numLoops) => numLoops < 0x100
  }

  // ---------- writing ----------

  function Spaces(n: nat): (s: string)
    ensures |s| == n && forall i | 0 <= i < |s| :: IsSpace(s[i])
  {
    seq(n, _ => ' ')
  }

  /** FwCmdScript::Write, with the indentation in a size_t. */
  function Indentation(indentation: nat): string {
    var wanted := 2 * indentation % SIZE_T;
    Spaces(if wanted < 10 then wanted else 10)
  }

  /** The indentation a command is written at, and the one it leaves. */
  function Before(c: Command, indentation: nat): nat {
    if c.LoopOff? then (indentation + SIZE_T - 1) % SIZE_T else indentation
  }

  function After(c: Command, indentation: nat): nat {
    if c.LoopOn? then (indentation + 1) % SIZE_T else Before(c, indentation)
  }

  function Decimal(n: nat): string {
    " " + Print(n, 10)
  }

  function Hex(n: nat): string {
    " " + HexText(n)
  }

  function Token(c: Command): (t: string)
    ensures t != "" && NoSpaces(t)
  {
    match c
    case Fade(_, _, _, _) => "fade"
    case Gradient(_, _, _, _, _, _) => "gradient"
    case Wait(_) => "wait"
    case LoopOn => "loop"
    case LoopOff(_) => "loop_off"
  }

  function Arguments(c: Command): string {
    match c
    case Fade(addr, color, time, parallel) =>
      Hex(addr) + (Hex(color) + (Decimal(time) + Decimal(if parallel then 1 else 0)))
    case Gradient(first, last, time, parallel, offset, length) =>
      Hex(first) + (Hex(last) + (Decimal(time) + (Decimal(offset) + (Decimal(length)
      + Decimal(if parallel then 0x80 else 0)))))
    case Wait(time) => Decimal(time)
    case LoopOn => ""
    case LoopOff(numLoops) => Decimal(numLoops)
  }

  /** The Write method of a command. */
  function WriteCommand(c: Command, indentation: nat): string {
    Indentation(Before(c, indentation)) + Token(c) + Arguments(c)
  }

  function WriteCommands(list: seq<Command>, indentation: nat): string {
    if list == [] then ""
    else WriteCommand(list[0], indentation) + "\n" + WriteCommands(list[1..], After(list[0], indentation))
  }

  /** Script::serialize */
  function WriteScript(name: string, list: seq<Command>): string {
    "1\n" + name + "\n" + WriteCommands(list, 0)
  }

  // ---------- reading ----------

  datatype Status = Done | UnknownCommand

  datatype Outcome = Outcome(list: seq<Command>, status: Status)

  /** The values that the variables of a constructor have before anything is read into them. Where the stream has
      ended they go into the command. It is the last one, so one set of values is enough. */
  datatype Unset = Unset(first: nat, second: nat, time: nat, numLoops: nat, parallel: bool,
                         offset: int, length: int, flag: int)

  /** The widths of the variables. */
  predicate InTypes(unset: Unset) {
    && unset.first < 0x1_0000_0000 && unset.second < 0x1_0000_0000
    && unset.time < 0x10000 && unset.numLoops < 0x1_0000_0000
  }

  /** A command that was read, and the stream behind it. */
  datatype Parsed = Unknown | Parsed(command: Command, rest: Stream)

  function AtLeastOne(time: nat): nat {
    if time < 1 then 1 else time
  }

  predicate Shorter(r: Stream, s: Stream) {
    r.Good? ==> s.Good? && |r.text| < |s.text|
  }

  /** Two WiflyColors. */
  function ReadColors(s: Stream, unset: Unset): (r: (nat, nat, Stream))
    ensures Shorter(r.2, s)
  {
    var first := ReadColor(s, unset.first);
    var second := ReadColor(first.1, unset.second);
    (first.0, second.0, second.1)
  }

  /** Time and parallel flag. */
  function ReadFading(s: Stream, unset: Unset): (r: (nat, bool, Stream))
    ensures Shorter(r.2, s)
  {
    var time := ReadUnsigned(s, 0xFFFF, unset.time);
    var parallel := ReadBool(time.1, unset.parallel);
    (time.0, parallel.0, parallel.1)
  }

  function ReadFade(s: Stream, unset: Unset): (r: (Command, Stream))
    ensures Shorter(r.1, s)
  {
    var colors := ReadColors(s, unset);
    var fading := ReadFading(colors.2, unset);
    (Fade(colors.0, colors.1 % 0x100_0000, AtLeastOne(fading.0), fading.1), fading.2)
  }

  function ReadGradient(s: Stream, unset: Unset): (r: (Command, Stream))
    ensures Shorter(r.1, s)
  {
    var colors := ReadColors(s, unset);
    var time := ReadUnsigned(colors.2, 0xFFFF, unset.time);
    var place := ReadPlace(time.1, unset);
    (SetGradient(colors.0, colors.1, time.0, place.0, place.1, place.2), place.3)
  }

  /** Offset, length and parallel bit. */
  function ReadPlace(s: Stream, unset: Unset): (r: (int, int, int, Stream))
    ensures Shorter(r.3, s)
  {
    var offset := ReadInt(s, unset.offset);
    var length := ReadInt(offset.1, unset.length);
    var parallel := ReadInt(length.1, unset.flag);
    (offset.0, length.0, parallel.0, parallel.1)
  }

  /** cmd_set_gradient::Set, with the conversions to 8 bits before it. */
  function SetGradient(first: nat, last: nat, time: nat, offset: int, length: int, parallel: int): Command {
    Gradient(first % 0x100_0000, last % 0x100_0000, AtLeastOne(time), parallel % 0x100 != 0, offset % 0x80,
             length % 0x100)
  }

  /** The constructors that read a command behind its token. */
  function ReadArguments(token: string, s: Stream, unset: Unset): (p: Parsed)
    ensures p.Parsed? && p.rest.Good? ==> s.Good? && |p.rest.text| <= |s.text|
  {
    if token == "loop" then Parsed(LoopOn, s)
    else if token == "loop_off" then
      var r := ReadUnsigned(s, 0xFFFF_FFFF, unset.numLoops);
      Parsed(LoopOff(r.0 % 0x100), r.1)
    else if token == "wait" then
      var r := ReadUnsigned(s, 0xFFFF, unset.time);
      Parsed(Wait(AtLeastOne(r.0)), r.1)
    else if token == "fade" then
      var r := ReadFade(s, unset);
      Parsed(r.0, r.1)
    else if token == "gradient" then
      var r := ReadGradient(s, unset);
      Parsed(r.0, r.1)
    else Unknown
  }

  /** The loop of Script::deserialize, with `list` read so far. */
  function ReadCommands(list: seq<Command>, s: Stream, unset: Unset): Outcome
    decreases if s.Good? then |s.text| + 1 else 0
  {
    if s.Failed? then Outcome(list, Done)
    else
      var word := ReadWord(s.text);
      if word.0 == "" then Outcome(list, Done)
      else
        match ReadArguments(word.0, Good(word.1), unset)
        case Unknown => Outcome(list, UnknownCommand)
        case Parsed(command, rest) => ReadCommands(list + [command], rest, unset)
  }

  /** std::getline: the line, and what follows its line feed. */
  function GetLine(text: string): (r: (string, string))
    ensures |r.1| <= |text|
  {
    if text == "" then ("", "")
    else if text[0] == '\n' then ("", text[1..])
    else
      var r := GetLine(text[1..]);
      ([text[0]] + r.0, r.1)
  }

  /** The name that a script has after its header, if it has had `name` before, and the text behind the header. A
      first line without a line feed ends the stream, and leaves the name alone. */
  function SkipHeader(text: string, name: string): (r: (string, string))
    ensures |r.1| <= |text|
  {
    if text == "" || !('0' <= text[0] <= '9') then (name, text)
    else if '\n' !in text then (name, "")
    else GetLine(GetLine(text).1)
  }

  // ---------- round trip ----------

  /** What a command becomes: times are at least 1. */
  function Normal(c: Command): Command {
    match c
    case Fade(addr, color, time, parallel) => Fade(addr, color, AtLeastOne(time), parallel)
    case Gradient(first, last, time, parallel, offset, length) =>
      Gradient(first, last, AtLeastOne(time), parallel, offset, length)
    case Wait(time) => Wait(AtLeastOne(time))
    case LoopOn => LoopOn
    case LoopOff(numLoops) => LoopOff(numLoops)
  }

  /** The text of an argument ends at a space or at the end of the line. */
  predicate Ends(rest: string) {
    rest != "" && IsSpace(rest[0])
  }

  lemma ReadHex(n: nat, unset: nat, rest: string)
    requires n < 0x1_0000_0000 && Ends(rest)
    ensures ReadColor(Good(Hex(n) + rest), unset) == (n, Good(rest)) && Ends(Hex(n) + rest)
  {
    HexWordIs(n);
    ReadWordIs(" ", HexText(n), rest);
  }

  lemma ReadDecimal(n: nat, max: nat, unset: nat, rest: string)
    requires n <= max && Ends(rest)
    ensures ReadUnsigned(Good(Decimal(n) + rest), max, unset) == (n, Good(rest)) && Ends(Decimal(n) + rest)
  {
    ScanNumberIs(n, rest);
  }

  lemma ReadSmall(n: nat, unset: int, rest: string)
    requires n < 0x8000_0000 && Ends(rest)
    ensures ReadInt(Good(Decimal(n) + rest), unset) == (n, Good(rest)) && Ends(Decimal(n) + rest)
  {
    ScanNumberIs(n, rest);
  }

  lemma ReadFlag(flag: bool, unset: bool, rest: string)
    requires Ends(rest)
    ensures var text := Decimal(if flag then 1 else 0) + rest;
            ReadBool(Good(text), unset) == (flag, Good(rest)) && Ends(text)
  {
    ScanNumberIs(if flag then 1 else 0, rest);
  }

  lemma ColorsRead(first: nat, second: nat, unset: Unset, rest: string)
    requires first < 0x1_0000_0000 && second < 0x1_0000_0000 && Ends(rest)
    ensures ReadColors(Good(Hex(first) + (Hex(second) + rest)), unset) == (first, second, Good(rest))
  {
    ReadHex(second, unset.second, rest);
    ReadHex(first, unset.first, Hex(second) + rest);
  }

  lemma FadingReads(time: nat, parallel: bool, unset: Unset, rest: string)
    requires time < 0x10000 && Ends(rest)
    ensures var text := Decimal(time) + (Decimal(if parallel then 1 else 0) + rest);
            Ends(text) && ReadFading(Good(text), unset) == (time, parallel, Good(rest))
  {
    ReadFlag(parallel, unset.parallel, rest);
    ReadDecimal(time, 0xFFFF, unset.time, Decimal(if parallel then 1 else 0) + rest);
  }

  /** Of a color the alpha byte is dropped. */
  lemma FadeReads(addr: nat, color: nat, time: nat, parallel: bool, unset: Unset, rest: string)
    requires addr < 0x1_0000_0000 && color < 0x1_0000_0000 && time < 0x10000 && Ends(rest)
    ensures var text := Hex(addr) + (Hex(color) + (Decimal(time) + Decimal(if parallel then 1 else 0))) + rest;
            ReadFade(Good(text), unset)
            == (Fade(addr, color % 0x100_0000, if time == 0 then 1 else time, parallel), Good(rest))
  {
    var p := Decimal(if parallel then 1 else 0);
    var fading := Decimal(time) + (p + rest);
    FadingReads(time, parallel, unset, rest);
    ColorsRead(addr, color, unset, fading);
    Nested(Hex(addr), Hex(color), Decimal(time), p, rest);
    FadeOf(Hex(addr) + (Hex(color) + fading), addr, color, fading, unset);
  }

  lemma FadeOf(text: string, addr: nat, color: nat, rest: string, unset: Unset)
    requires ReadColors(Good(text), unset) == (addr, color, Good(rest))
    ensures var fading := ReadFading(Good(rest), unset);
            ReadFade(Good(text), unset)
            == (Fade(addr, color % 0x100_0000, AtLeastOne(fading.0), fading.1), fading.2)
  {
  }

  lemma Nested(a: string, b: string, c: string, d: string, rest: string)
    ensures a + (b + (c + d)) + rest == a + (b + (c + (d + rest)))
  {
  }

  lemma PlaceReads(offset: nat, length: nat, parallel: nat, unset: Unset, rest: string)
    requires offset < 0x8000_0000 && length < 0x8000_0000 && parallel < 0x8000_0000 && Ends(rest)
    ensures var text := Decimal(offset) + (Decimal(length) + (Decimal(parallel) + rest));
            Ends(text) && ReadPlace(Good(text), unset) == (offset, length, parallel, Good(rest))
  {
    ReadSmall(parallel, unset.flag, rest);
    ReadSmall(length, unset.length, Decimal(parallel) + rest);
    ReadSmall(offset, unset.offset, Decimal(length) + (Decimal(parallel) + rest));
  }

  /** Offset, length and parallel bit are what their lowest 7, 8 and 8 bits are. */
  lemma GradientReads(first: nat, last: nat, time: nat, offset: nat, length: nat, flag: nat, unset: Unset,
                      rest: string)
    requires first < 0x1_0000_0000 && last < 0x1_0000_0000 && time < 0x10000 && Ends(rest)
    requires offset < 0x8000_0000 && length < 0x8000_0000 && flag < 0x8000_0000
    ensures ReadGradient(Good(Hex(first) + (Hex(last) + (Decimal(time) + (Decimal(offset) + (Decimal(length)
                              + Decimal(flag))))) + rest), unset)
            == (Gradient(first % 0x100_0000, last % 0x100_0000, if time == 0 then 1 else time, flag % 0x100 != 0,
                         offset % 0x80, length % 0x100), Good(rest))
  {
    var place := Decimal(offset) + (Decimal(length) + (Decimal(flag) + rest));
    PlaceReads(offset, length, flag, unset, rest);
    ReadDecimal(time, 0xFFFF, unset.time, place);
    ColorsRead(first, last, unset, Decimal(time) + place);
    Nested6(Hex(first), Hex(last), Decimal(time), Decimal(offset), Decimal(length), Decimal(flag), rest);
  }

  lemma Nested6(a: string, b: string, c: string, d: string, e: string, f: string, rest: string)
    ensures a + (b + (c + (d + (e + f)))) + rest == a + (b + (c + (d + (e + (f + rest)))))
  {
    Nested(c, d, e, f, rest);
    assert a + (b + (c + (d + (e + f)))) + rest == a + (b + (c + (d + (e + f)) + rest));
  }

  /** No token is taken for another. */
  lemma TokensSelect(c: Command, s: Stream, unset: Unset)
    ensures ReadArguments(Token(c), s, unset)
            == match c
               case Fade(_, _, _, _) => Parsed(ReadFade(s, unset).0, ReadFade(s, unset).1)
               case Gradient(_, _, _, _, _, _) => Parsed(ReadGradient(s, unset).0, ReadGradient(s, unset).1)
               case Wait(_) =>
                 var r := ReadUnsigned(s, 0xFFFF, unset.time);
                 Parsed(Wait(AtLeastOne(r.0)), r.1)
               case LoopOn => Parsed(LoopOn, s)
               case LoopOff(_) =>
                 var r := ReadUnsigned(s, 0xFFFF_FFFF, unset.numLoops);
                 Parsed(LoopOff(r.0 % 0x100), r.1)
  {
    assert "loop" != "loop_off" && "wait" != "loop" && "fade" != "loop";
    assert "gradient" != "loop" && |"gradient"| == |"loop_off"| && "gradient"[0] != "loop_off"[0];
    assert "wait"[0] == 'w' && "fade"[0] == 'f' && "loop"[0] == 'l';
  }

  lemma FadeBack(c: Command, unset: Unset, rest: string)
    requires c.Fade? && InFields(c) && Ends(rest)
    ensures ReadFade(Good(Arguments(c) + rest), unset) == (Normal(c), Good(rest))
  {
    FadeReads(c.addr, c.color, c.time, c.parallel, unset, rest);
    Small(c.color, 0x100_0000);
  }

  lemma GradientBack(c: Command, unset: Unset, rest: string)
    requires c.Gradient? && InFields(c) && Ends(rest)
    ensures ReadGradient(Good(Arguments(c) + rest), unset) == (Normal(c), Good(rest))
  {
    var flag := if c.parallel then 0x80 else 0;
    GradientReads(c.first, c.last, c.time, c.offset, c.length, flag, unset, rest);
    Small(c.first, 0x100_0000);
    Small(c.last, 0x100_0000);
    Small(c.offset, 0x80);
    Small(c.length, 0x100);
    Small(flag, 0x100);
  }

  lemma Small(n: nat, m: nat)
    requires n < m
    ensures n % m == n
  {
  }

  /** Every command is read back from what its Write method wrote. */
  lemma CommandReads(c: Command, unset: Unset, rest: string)
    requires InFields(c) && Ends(rest)
    ensures ReadArguments(Token(c), Good(Arguments(c) + rest), unset) == Parsed(Normal(c), Good(rest))
  {
    TokensSelect(c, Good(Arguments(c) + rest), unset);
    match c
    case Fade(_, _, _, _) => FadeBack(c, unset, rest);
    case Gradient(_, _, _, _, _, _) => GradientBack(c, unset, rest);
    case Wait(time) => ReadDecimal(time, 0xFFFF, unset.time, rest);
    case LoopOn => assert Arguments(c) + rest == rest;
    case LoopOff(n) => ReadDecimal(n, 0xFFFF_FFFF, unset.numLoops, rest);
  }

  function Normals(list: seq<Command>): (n: seq<Command>)
    ensures |n| == |list|
  {
    seq(|list|, i requires 0 <= i < |list| => Normal(list[i]))
  }

  predicate AllInFields(list: seq<Command>) {
    forall i | 0 <= i < |list| :: InFields(list[i])
  }

  lemma ArgumentsEnd(c: Command, rest: string)
    requires Ends(rest)
    ensures Ends(Arguments(c) + rest)
  {
  }

  lemma LineParts(before: string, spaces: string, token: string, arguments: string, rest: string)
    ensures before + (spaces + token + arguments) + rest == before + spaces + token + (arguments + rest)
  {
  }

  lemma LineReads(done: seq<Command>, before: string, c: Command, indentation: nat, unset: Unset, rest: string)
    requires InFields(c) && Ends(rest) && (before == "" || before == "\n")
    ensures ReadCommands(done, Good(before + WriteCommand(c, indentation) + rest), unset)
            == ReadCommands(done + [Normal(c)], Good(rest), unset)
  {
    var spaces := before + Indentation(Before(c, indentation));
    LineParts(before, Indentation(Before(c, indentation)), Token(c), Arguments(c), rest);
    ArgumentsEnd(c, rest);
    ReadWordIs(spaces, Token(c), Arguments(c) + rest);
    CommandReads(c, unset, rest);
  }

  lemma Joined(before: string, line: string, rest: string)
    ensures before + (line + "\n" + rest) == before + line + ("\n" + rest)
  {
  }

  lemma NormalsSplit(done: seq<Command>, list: seq<Command>)
    requires list != []
    ensures done + Normals(list) == done + [Normal(list[0])] + Normals(list[1..])
  {
  }

  lemma {:induction false} CommandsRead(
    done: seq<Command>, before: string, list: seq<Command>, indentation: nat, unset: Unset)
    requires AllInFields(list) && (before == "" || before == "\n")
    ensures ReadCommands(done, Good(before + WriteCommands(list, indentation)), unset)
            == Outcome(done + Normals(list), Done)
    decreases |list|
  {
    if list == [] {
      SkipSpacesIs(before, "");
      assert before + "" == before;
      assert done + Normals(list) == done;
    } else {
      var more := "\n" + WriteCommands(list[1..], After(list[0], indentation));
      LineReads(done, before, list[0], indentation, unset, more);
      CommandsRead(done + [Normal(list[0])], "\n", list[1..], After(list[0], indentation), unset);
      Joined(before, WriteCommand(list[0], indentation), WriteCommands(list[1..], After(list[0], indentation)));
      NormalsSplit(done, list);
    }
  }

  lemma {:induction false} GetLineIs(line: string, rest: string)
    requires forall i | 0 <= i < |line| :: line[i] != '\n'
    ensures GetLine(line + "\n" + rest) == (line, rest)
  {
    var text := line + "\n" + rest;
    if line == "" {
      assert text[1..] == rest;
    } else {
      assert text[1..] == line[1..] + "\n" + rest;
      GetLineIs(line[1..], rest);
      assert [text[0]] + line[1..] == line;
    }
  }

  /** A header is a line that begins with a digit, and the name on the next one. */
  lemma HeaderReads(version: string, name: string, before: string, commands: string)
    requires version != "" && '0' <= version[0] <= '9' && '\n' !in version && '\n' !in name
    ensures SkipHeader(version + "\n" + name + "\n" + commands, before) == (name, commands)
    ensures SkipHeader(version, before) == (before, "")
  {
    var text := version + "\n" + name + "\n" + commands;
    assert text == version + "\n" + (name + "\n" + commands);
    assert text[0] == version[0] && text[|version|] == '\n';
    GetLineIs(version, name + "\n" + commands);
    GetLineIs(name, commands);
  }

  /** A text that does not begin with a digit has no header, and all of it is commands. */
  lemma NoHeader(text: string, before: string)
    requires text == "" || !('0' <= text[0] <= '9')
    ensures SkipHeader(text, before) == (before, text)
  {
  }

  /** The script that is read from a text. */
  function ReadScript(text: string, unset: Unset): Outcome {
    ReadCommands([], Good(SkipHeader(text, "").1), unset)
  }

  /** Reading a written script gives its name and its commands with times of at least 1, whatever the nesting
      of its loops. */
  lemma ScriptReads(name: string, list: seq<Command>, unset: Unset)
    requires AllInFields(list) && forall i | 0 <= i < |name| :: name[i] != '\n'
    ensures SkipHeader(WriteScript(name, list), "").0 == name
    ensures ReadScript(WriteScript(name, list), unset) == Outcome(Normals(list), Done)
  {
    HeaderReads("1", name, "", WriteCommands(list, 0));
    assert "1" + "\n" == "1\n";
    CommandsRead([], "", list, 0, unset);
    assert "" + WriteCommands(list, 0) == WriteCommands(list, 0);
    assert [] + Normals(list) == Normals(list);
  }

  /** So do the commands alone, without a header. */
  lemma CommandsAloneRead(list: seq<Command>, unset: Unset)
    requires AllInFields(list)
    ensures ReadScript(WriteCommands(list, 0), unset) == Outcome(Normals(list), Done)
  {
    var text := WriteCommands(list, 0);
    if list != [] { FirstLetter(list[0], WriteCommands(list[1..], After(list[0], 0))); }
    NoHeader(text, "");
    CommandsRead([], "", list, 0, unset);
    assert "" + text == text;
    assert [] + Normals(list) == Normals(list);
  }

  lemma FirstLetter(c: Command, rest: string)
    ensures var text := WriteCommand(c, 0) + "\n" + rest; text != "" && !('0' <= text[0] <= '9')
  {
    var spaces := Indentation(Before(c, 0));
    var text := WriteCommand(c, 0) + "\n" + rest;
    if spaces == "" {
      assert WriteCommand(c, 0)[0] == Token(c)[0];
    } else {
      assert text[0] == spaces[0] && IsSpace(spaces[0]);
    }
  }

  predicate HasTime(c: Command) {
    match c
    case Fade(_, _, time, _) => time >= 1
    case Gradient(_, _, time, _, _, _) => time >= 1
    case Wait(time) => time >= 1
    case LoopOn => true
    case LoopOff(_) => true
  }

  /** The same commands come back exactly if all times are at least 1. */
  lemma RoundTrip(name: string, list: seq<Command>, unset: Unset)
    requires AllInFields(list) && forall i | 0 <= i < |name| :: name[i] != '\n'
    ensures ReadScript(WriteScript(name, list), unset) == Outcome(list, Done)
            <==> forall i | 0 <= i < |list| :: HasTime(list[i])
  {
    ScriptReads(name, list, unset);
    NormalsAre(list);
  }

  // ---------- what is written ----------

  /** The indentation grows by two for each open loop, up to 10. Below zero it wraps round, and is 10 as well. */
  lemma IndentationIs(depth: nat)
    requires depth < 0x8000_0000_0000_0000
    ensures Indentation(depth) == seq(if depth < 5 then 2 * depth else 10, _ => ' ')
    ensures Before(LoopOff(0), 0) == 0xFFFF_FFFF_FFFF_FFFF && Indentation(Before(LoopOff(0), 0)) == seq(10, _ => ' ')
  {
  }

  /** The text of each command. */
  lemma CommandForm(c: Command)
    ensures Token(c) + Arguments(c)
            == match c
               case Fade(addr, color, time, parallel) =>
                 "fade" + (" 0x" + Print(addr, 16) + (" 0x" + Print(color, 16) + (" " + Print(time, 10)
                           + (if parallel then " 1" else " 0"))))
               case Gradient(first, last, time, parallel, offset, length) =>
                 "gradient" + (" 0x" + Print(first, 16) + (" 0x" + Print(last, 16) + (" " + Print(time, 10)
                               + (" " + Print(offset, 10) + (" " + Print(length, 10)
                               + (if parallel then " 128" else " 0"))))))
               case Wait(time) => "wait" + (" " + Print(time, 10))
               case LoopOn => "loop"
               case LoopOff(numLoops) => "loop_off" + (" " + Print(numLoops, 10))
  {
    match c
    case Fade(addr, color, _, parallel) =>
      HexForm(addr);
      HexForm(color);
      FlagForm(parallel);
    case Gradient(first, last, _, parallel, _, _) =>
      HexForm(first);
      HexForm(last);
      FlagForm(parallel);
    case Wait(_) =>
    case LoopOn => assert "loop" + "" == "loop";
    case LoopOff(_) =>
  }

  /** A LOOP_OFF is written, and leaves the text, one level further out; behind a LOOP_ON it goes on one level further
      in. */
  lemma LineForm(c: Command, depth: nat)
    requires 1 <= depth < 0x8000_0000_0000_0000
    ensures WriteCommand(c, depth)
            == seq(var d := if c.LoopOff? then depth - 1 else depth; if d < 5 then 2 * d else 10, _ => ' ')
               + (Token(c) + Arguments(c))
    ensures After(c, depth) == if c.LoopOn? then depth + 1 else if c.LoopOff? then depth - 1 else depth
  {
    IndentationIs(Before(c, depth));
    Behind(Indentation(Before(c, depth)), Token(c), Arguments(c));
  }

  lemma HexForm(n: nat)
    ensures Hex(n) == " 0x" + Print(n, 16)
  {
    assert " " + ("0x" + Print(n, 16)) == " 0x" + Print(n, 16);
  }

  lemma FlagForm(flag: bool)
    ensures Decimal(if flag then 1 else 0) == (if flag then " 1" else " 0")
    ensures Decimal(if flag then 0x80 else 0) == if flag then " 128" else " 0"
  {
    assert Print(0, 10) == "0" && Print(1, 10) == "1";
    assert Print(12, 10) == Print(1, 10) + [DigitChar(2)];
    assert Print(128, 10) == Print(12, 10) + [DigitChar(8)] == "128";
  }

  lemma Behind(i: string, token: string, arguments: string)
    ensures i + token + arguments == i + (token + arguments) && i + token + "" == i + token
  {
  }

  // ---------- reading any text ----------

  /** Each command fits its frame and has a time of at least 1. */
  predicate AllFit(list: seq<Command>) {
    forall i | 0 <= i < |list| :: InFields(list[i]) && HasTime(list[i])
  }

  lemma FadeFits(s: Stream, unset: Unset)
    requires InTypes(unset)
    ensures AllFit([ReadFade(s, unset).0])
  {
  }

  lemma GradientFits(s: Stream, unset: Unset)
    requires InTypes(unset)
    ensures AllFit([ReadGradient(s, unset).0])
  {
  }

  lemma ArgumentsFit(token: string, s: Stream, unset: Unset)
    requires InTypes(unset)
    ensures var p := ReadArguments(token, s, unset);
            p.Parsed? ==> AllFit([p.command])
  {
    FadeFits(s, unset);
    GradientFits(s, unset);
  }

  lemma AllFitLonger(list: seq<Command>, c: Command)
    requires AllFit(list) && AllFit([c])
    ensures AllFit(list + [c])
  {
    assert [c][0] == c;
  }

  /** Whatever is read fits. */
  lemma {:induction false} CommandsFit(list: seq<Command>, s: Stream, unset: Unset)
    requires InTypes(unset) && AllFit(list)
    ensures AllFit(ReadCommands(list, s, unset).list)
    decreases if s.Good? then |s.text| + 1 else 0
  {
    if s.Good? {
      var word := ReadWord(s.text);
      var p := ReadArguments(word.0, Good(word.1), unset);
      ArgumentsFit(word.0, Good(word.1), unset);
      if word.0 != "" && p.Parsed? {
        AllFitLonger(list, p.command);
        CommandsFit(list + [p.command], p.rest, unset);
      }
    }
  }

  /** What has been read from any text at all, even one that ends in the middle of a command or is wrong, is read
      back as it is once it has been written. */
  lemma ReadAgain(text: string, name: string, first: Unset, second: Unset)
    requires InTypes(first) && forall i | 0 <= i < |name| :: name[i] != '\n'
    ensures var list := ReadScript(text, first).list;
            ReadScript(WriteScript(name, list), second) == Outcome(list, Done)
  {
    var list := ReadScript(text, first).list;
    CommandsFit([], Good(SkipHeader(text, "").1), first);
    assert AllInFields(list);
    RoundTrip(name, list, second);
  }

  lemma NormalIs(c: Command)
    ensures Normal(c) == c <==> HasTime(c)
  {
  }

  lemma NormalsAre(list: seq<Command>)
    ensures Normals(list) == list <==> forall i | 0 <= i < |list| :: HasTime(list[i])
  {
    forall i | 0 <= i < |list| ensures Normals(list)[i] == list[i] <==> HasTime(list[i]) {
      NormalIs(list[i]);
    }
  }

  /** A text that ends behind a token gives a command of what its variables hold. */
  lemma CutShort(token: string, text: string, unset: Unset)
    requires token in {"wait", "fade", "gradient", "loop_off"} && SkipSpaces(text) == ""
    ensures ReadArguments(token, Good(text), unset)
            == Parsed(if token == "wait" then Wait(AtLeastOne(unset.time))
                      else if token == "loop_off" then LoopOff(unset.numLoops % 0x100)
                      else if token == "fade" then
                        Fade(unset.first, unset.second % 0x100_0000, AtLeastOne(unset.time), unset.parallel)
                      else Gradient(unset.first % 0x100_0000, unset.second % 0x100_0000, AtLeastOne(unset.time),
                                    unset.flag % 0x100 != 0, unset.offset % 0x80, unset.length % 0x100), Failed)
  {
    assert "wait"[0] == 'w' && "fade"[0] == 'f' && "loop_off"[0] == 'l' && "gradient"[0] == 'g' && "loop"[0] == 'l';
    assert |"loop"| != |"loop_off"|;
    assert ReadColors(Good(text), unset) == (unset.first, unset.second, Failed);
  }

  /** Reading ends at an unknown token, and what was read before it stays. */
  lemma UnknownStops(done: seq<Command>, list: seq<Command>, depth: nat, token: string, rest: string, unset: Unset)
    requires AllInFields(list) && token != "" && NoSpaces(token) && Separated(rest)
    requires token !in {"loop", "loop_off", "wait", "fade", "gradient"}
    ensures ReadCommands(done, Good("\n" + WriteCommands(list, depth) + (token + rest)), unset)
            == Outcome(done + Normals(list), UnknownCommand)
    decreases |list|
  {
    if list == [] {
      ReadWordIs("\n", token, rest);
      assert "\n" + "" + (token + rest) == "\n" + token + rest;
      assert done + Normals(list) == done;
    } else {
      var next := After(list[0], depth);
      var more := "\n" + WriteCommands(list[1..], next) + (token + rest);
      LineReads(done, "\n", list[0], depth, unset, more);
      UnknownStops(done + [Normal(list[0])], list[1..], next, token, rest, unset);
      JoinedMore("\n", WriteCommand(list[0], depth), WriteCommands(list[1..], next), token + rest);
      NormalsSplit(done, list);
    }
  }

  lemma JoinedMore(before: string, line: string, rest: string, more: string)
    ensures before + (line + "\n" + rest) + more == before + line + ("\n" + rest + more)
  {
  }

  // ---------- the class ----------

  /** What follows the last '/' of a path. */
  function FileName(path: string): string {
    if forall i | 0 <= i < |path| :: path[i] != '/' then path
    else FileName(path[1..])
  }

  /** It is what is behind the last '/'. */
  predicate BehindLastSlash(path: string, name: string) {
    && |name| <= |path| && path[|path| - |name|..] == name && '/' !in name
    && (|name| == |path| || path[|path| - |name| - 1] == '/')
  }

  lemma {:induction false} FileNameIs(path: string)
    ensures BehindLastSlash(path, FileName(path))
    decreases |path|
  {
    if exists i :: 0 <= i < |path| && path[i] == '/' {
      FileNameIs(path[1..]);
    }
  }

  class Script {
    var name: string
    var list: seq<Command>

    constructor ()
      ensures name == "" && list == []
    {
      name, list := "", [];
    }

    /** Script::serialize */
    method Serialize() returns (outFile: string)
      ensures outFile == WriteScript(name, list)
    {
      outFile := "1\n" + name + "\n";
      ghost var script := WriteScript(name, list);
      FirstLines(name, list);
      var indentation := 0;
      for i := 0 to |list|
        invariant Completes(outFile, list, i, indentation, script)
      {
        NextLine(outFile, list, i, indentation, script);
        outFile := outFile + WriteCommand(list[i], indentation) + "\n";
        indentation := After(list[i], indentation);
      }
      LastLine(outFile, list, indentation, script);
    }

    /** The loop of Script::deserialize. The commands read before an unknown one stay. */
    method ReadList(text: string, unset: Unset) returns (status: Status)
      modifies this`list
      ensures Outcome(list, status) == ReadCommands(old(list), Good(text), unset)
    {
      var inStream := Good(text);
      while inStream.Good?
        invariant ReadCommands(list, inStream, unset) == ReadCommands(old(list), Good(text), unset)
        decreases if inStream.Good? then |inStream.text| + 1 else 0
      {
        var command := ReadWord(inStream.text);
        if command.0 == "" {
          return Done;
        }
        match ReadArguments(command.0, Good(command.1), unset)
        case Unknown => return UnknownCommand;
        case Parsed(c, rest) =>
          list := list + [c];
          inStream := rest;
      }
      return Done;
    }

    /** Script::deserialize of a file: unless an unknown command ends it, a script without a name is named after
        the file. */
    method Deserialize(path: string, text: string, unset: Unset) returns (status: Status)
      modifies this
      ensures Outcome(list, status) == ReadCommands(old(list), Good(SkipHeader(text, old(name)).1), unset)
      ensures var header := SkipHeader(text, old(name)).0;
              name == if status == Done && header == "" then FileName(path) else header
      // without a header
      ensures text == "" || !('0' <= text[0] <= '9') ==>
                && Outcome(list, status) == ReadCommands(old(list), Good(text), unset)
                && (status == Done && old(name) == "" ==> BehindLastSlash(path, name))
                && (status != Done || old(name) != "" ==> name == old(name))
    {
      FileNameIs(path);
      var inStream := text;
      if inStream != "" && '0' <= inStream[0] <= '9' {
        if '\n' in inStream {
          inStream := GetLine(inStream).1;
          name, inStream := GetLine(inStream).0, GetLine(inStream).1;
        } else {
          inStream := "";
        }
      }
      status := ReadList(inStream, unset);
      if status == Done && name == "" {
        name := FileName(path);
      }
    }
  }

  /** The lines from `i` on complete the text to the script. */
  predicate Completes(text: string, list: seq<Command>, i: nat, indentation: nat, script: string)
    requires i <= |list|
  {
    text + WriteCommands(list[i..], indentation) == script
  }

  lemma FirstLines(name: string, list: seq<Command>)
    ensures Completes("1\n" + name + "\n", list, 0, 0, WriteScript(name, list))
  {
    assert list[0..] == list;
  }

  lemma NextLine(text: string, list: seq<Command>, i: nat, indentation: nat, script: string)
    requires i < |list| && Completes(text, list, i, indentation, script)
    ensures var next := After(list[i], indentation);
            Completes(text + WriteCommand(list[i], indentation) + "\n", list, i + 1, next, script)
  {
    assert list[i..][1..] == list[i + 1..];
    var next := After(list[i], indentation);
    LineAppended(text, WriteCommand(list[i], indentation), "\n", WriteCommands(list[i + 1..], next));
  }

  lemma LineAppended(a: string, b: string, c: string, d: string)
    ensures a + (b + c + d) == a + b + c + d
  {
  }

  lemma LastLine(text: string, list: seq<Command>, indentation: nat, script: string)
    requires Completes(text, list, |list|, indentation, script)
    ensures text == script
  {
    assert text + "" == text;
  }
}
