/** The diagnostic command: its text form, the parser and the printer. */
module Commands {
  import opened Common
  import opened Utf8

  const MAX_ENABLE_SECONDS: nat := 86400
  const MAX_COMMAND_BYTES: nat := 512
  const MAX_ID_LENGTH: nat := 96
  const CONTROL_VERSION := "KAD1"

  datatype Action = Enable(seconds: nat) | Disable

  datatype Command = Command(id: string, action: Action)

  datatype CommandError =
    NotUtf8 | InvalidFormat | InvalidVersion | InvalidId | InvalidDuration | InvalidAction | TooLarge

  predicate IsIdChar(c: char) {
    IsDigit(c) || 'a' <= c <= 'z' || 'A' <= c <= 'Z' || c == '-'
  }

  /** `validate_id`. The source bounds the length in bytes; any id with a character of
      more than one byte is refused by the last test anyway. */
  predicate ValidId(id: string) {
    0 < |id| <= MAX_ID_LENGTH && forall c :: c in id ==> IsIdChar(c)
  }

  function MakeEnable(id: string, seconds: nat): Result<Command, CommandError> {
    if !ValidId(id) then Err(InvalidId)
    else if !(1 <= seconds <= MAX_ENABLE_SECONDS) then Err(InvalidDuration)
    else Ok(Command(id, Enable(seconds)))
  }

  function MakeDisable(id: string): Result<Command, CommandError> {
    if !ValidId(id) then Err(InvalidId) else Ok(Command(id, Disable))
  }

  /** Some constructor returns this command. */
  predicate Constructible(c: Command) {
    if c.action.Disable? then MakeDisable(c.id) == Ok(c) else MakeEnable(c.id, c.action.seconds) == Ok(c)
  }

  function Parse(payload: seq<Byte>): Result<Command, CommandError> {
    if |payload| > MAX_COMMAND_BYTES then Err(TooLarge)
    else
      match Decode(payload)
      case None => Err(NotUtf8)
      case Some(text) => ParseFields(Split(Trim(text), '|'))
  }

  function ParseFields(fields: seq<string>): Result<Command, CommandError> {
    if |fields| != 4 then Err(InvalidFormat)
    else if fields[0] != CONTROL_VERSION then Err(InvalidVersion)
    else if fields[2] == "enable" then
      match ParseU64(fields[3])
      case None => Err(InvalidDuration)
      case Some(seconds) => MakeEnable(fields[1], seconds)
    else if fields[2] == "disable" then
      if fields[3] == "0" then MakeDisable(fields[1]) else Err(InvalidDuration)
    else Err(InvalidAction)
  }

  function Text(c: Command): string {
    match c.action
    case Enable(seconds) => CONTROL_VERSION + "|" + c.id + "|enable|" + Show(seconds)
    case Disable => CONTROL_VERSION + "|" + c.id + "|disable|0"
  }

  /** `DiagnosticCommand::encode`. */
  function EncodeCommand(c: Command): seq<Byte> {
    Encode(Text(c))
  }

  // ── The accepted texts ─────────────────────────────────────────────────────

  /** A way to write `n`: an optional plus sign and digits, leading zeros allowed. */
  ghost predicate Numeral(num: string, n: nat) {
    exists digits: string :: (num == digits || num == "+" + digits)
      && digits != [] && AllDigits(digits) && Value(digits) == n <= U64_MAX
  }

  ghost predicate ActionText(verb: string, argument: string, action: Action) {
    match action
    case Enable(seconds) => verb == "enable" && Numeral(argument, seconds)
    case Disable => verb == "disable" && argument == "0"
  }

  /** `text` is a way to write `c`, with any whitespace around it. */
  ghost predicate Writes(text: string, c: Command) {
    exists pre, verb, argument, post ::
      && AllSpace(pre) && AllSpace(post)
      && text == pre + Line(c.id, verb, argument) + post
      && ActionText(verb, argument, c.action)
  }

  function Line(id: string, verb: string, argument: string): string {
    Join([CONTROL_VERSION, id, verb, argument], '|')
  }

  lemma NumeralExactly(num: string, n: nat)
    ensures ParseU64(num) == Some(n) <==> Numeral(num, n)
  {
    if ParseU64(num) == Some(n) {
      var digits := if num[0] == '+' then num[1..] else num;
      assert num == digits || num == "+" + digits;
    }
    if Numeral(num, n) {
      var digits: string :| (num == digits || num == "+" + digits)
        && digits != [] && AllDigits(digits) && Value(digits) == n <= U64_MAX;
      assert digits[0] in digits;
      if num == "+" + digits {
        assert num[1..] == digits;
      }
    }
  }

  /** No field of an accepted line holds a separator or ends in whitespace. */
  lemma LineIsPlain(c: Command, verb: string, argument: string)
    requires ValidId(c.id) && ActionText(verb, argument, c.action)
    ensures forall f :: f in [CONTROL_VERSION, c.id, verb, argument] ==> '|' !in f
    ensures argument != [] && IsDigit(argument[|argument| - 1])
  {
    if c.action.Enable? {
      var digits: string :| (argument == digits || argument == "+" + digits)
        && digits != [] && AllDigits(digits) && Value(digits) == c.action.seconds;
      assert digits[|digits| - 1] in digits;
    }
  }

  lemma LineEnds(id: string, verb: string, argument: string)
    requires argument != [] && IsDigit(argument[|argument| - 1])
    ensures var line := Line(id, verb, argument);
            line != [] && !IsSpace(line[0]) && !IsSpace(line[|line| - 1])
  {
    JoinFour(CONTROL_VERSION, id, verb, argument);
    var front := CONTROL_VERSION + "|" + id + "|" + verb + "|";
    assert Line(id, verb, argument) == front + argument;
    assert front[0] == 'K';
  }

  lemma JoinFour(a: string, b: string, c: string, d: string)
    ensures Join([a, b, c, d], '|') == a + "|" + b + "|" + c + "|" + d
  {
    assert [a, b, c, d][1..] == [b, c, d];
    assert [b, c, d][1..] == [c, d];
    assert [c, d][1..] == [d];
    assert Join([c, d], '|') == c + ['|'] + d;
    assert Join([b, c, d], '|') == b + ['|'] + (c + ['|'] + d);
    assert Join([a, b, c, d], '|') == a + ['|'] + (b + ['|'] + (c + ['|'] + d));
  }

  predicate PermittedId(id: string) {
    1 <= |id| <= 96 && forall x :: x in id ==> '0' <= x <= '9' || 'a' <= x <= 'z' || 'A' <= x <= 'Z' || x == '-'
  }

  /** What a command may hold: a short id of ASCII letters, digits and hyphens, and a
      duration between one second and one day. */
  predicate Permitted(c: Command) {
    PermittedId(c.id) && (c.action.Enable? ==> 1 <= c.action.seconds <= 86400)
  }

  /** The constructors accept exactly that. */
  lemma ConstructibleExactly(c: Command)
    ensures Constructible(c) <==> Permitted(c)
  {
    assert ValidId(c.id) <==> PermittedId(c.id);
  }

  /** Size and encoding are checked first; only then do the fields matter. */
  lemma RefusedEarly(payload: seq<Byte>)
    ensures Parse(payload) == Err(TooLarge) <==> |payload| > 512
    ensures Parse(payload) == Err(NotUtf8) <==> |payload| <= 512 && !exists t :: payload == Encode(t)
  {
    if Decode(payload).Some? {
      DecodedIsEncoded(payload, Decode(payload).value);
    }
    if t :| payload == Encode(t) {
      DecodeInverts(t);
    }
    if |payload| <= 512 && Decode(payload).Some? {
      ParseFieldsErrors(Split(Trim(Decode(payload).value), '|'));
    }
  }

  lemma ParseFieldsErrors(fields: seq<string>)
    ensures ParseFields(fields) != Err(TooLarge) && ParseFields(fields) != Err(NotUtf8)
  {
  }

  /** Why a text is refused, by the fields between the bars of the trimmed text, in the
      order of the checks. */
  lemma RefusedExactly(payload: seq<Byte>, text: string, fields: seq<string>)
    requires fields != [] && forall f :: f in fields ==> '|' !in f
    requires |payload| <= 512 && payload == Encode(text) && Trim(text) == Join(fields, '|')
    ensures Parse(payload) == Err(InvalidFormat) <==> |fields| != 4
    ensures |fields| == 4 ==> (Parse(payload) == Err(InvalidVersion) <==> fields[0] != "KAD1")
    ensures |fields| == 4 && fields[0] == "KAD1" ==> FieldsRefused(Parse(payload), fields[1], fields[2], fields[3])
  {
    DecodeInverts(text);
    SplitJoin(fields, '|');
    if |fields| == 4 && fields[0] == "KAD1" {
      FieldsRefusedExactly(fields);
    }
  }

  lemma FieldsRefusedExactly(fields: seq<string>)
    requires |fields| == 4 && fields[0] == "KAD1"
    ensures FieldsRefused(ParseFields(fields), fields[1], fields[2], fields[3])
  {
    assert ValidId(fields[1]) <==> PermittedId(fields[1]);
    forall n: nat ensures Numeral(fields[3], n) <==> ParseU64(fields[3]) == Some(n) {
      NumeralExactly(fields[3], n);
    }
  }

  /** The checks behind the version: the verb, the form of the argument, the id, the range. */
  ghost predicate FieldsRefused(r: Result<Command, CommandError>, id: string, verb: string, argument: string) {
    && (r == Err(InvalidAction) <==> verb != "enable" && verb != "disable")
    && (verb == "disable" ==>
          && (r == Err(InvalidDuration) <==> argument != "0")
          && (r == Err(InvalidId) <==> argument == "0" && !PermittedId(id)))
    && (verb == "enable" ==>
          && (r == Err(InvalidId) <==> (exists n: nat :: Numeral(argument, n)) && !PermittedId(id))
          && (r == Err(InvalidDuration) <==>
                || !(exists n: nat :: Numeral(argument, n))
                || (PermittedId(id) && !exists n: nat :: Numeral(argument, n) && 1 <= n <= 86400)))
  }

  /** The parser accepts exactly the encoded texts of constructible commands, and returns
      the command the text writes. */
  lemma ParseExactly(payload: seq<Byte>, c: Command)
    ensures Parse(payload) == Ok(c) <==>
            && |payload| <= 512 && Permitted(c)
            && exists text :: payload == Encode(text) && Writes(text, c)
  {
    ConstructibleExactly(c);
    if Parse(payload) == Ok(c) {
      var text := Decode(payload).value;
      DecodedIsEncoded(payload, text);
      ParsedIsWritten(text, c);
    }
    if |payload| <= MAX_COMMAND_BYTES && Constructible(c) {
      assert Permitted(c);
      if text :| payload == Encode(text) && Writes(text, c) {
        DecodeInverts(text);
        WrittenIsParsed(text, c);
      }
    }
  }

  lemma ParsedIsWritten(text: string, c: Command)
    requires ParseFields(Split(Trim(text), '|')) == Ok(c)
    ensures Constructible(c) && Writes(text, c)
  {
    var fields := Split(Trim(text), '|');
    FieldsAreWritten(fields, c);
    JoinSplit(Trim(text), '|');
    var pre := TrimStartSplits(text);
    var post := TrimEndSplits(TrimStart(text));
    assert text == pre + Line(c.id, fields[2], fields[3]) + post;
  }

  lemma FieldsAreWritten(fields: seq<string>, c: Command)
    requires ParseFields(fields) == Ok(c)
    ensures Constructible(c) && |fields| == 4 && fields == [CONTROL_VERSION, c.id, fields[2], fields[3]]
    ensures ActionText(fields[2], fields[3], c.action)
  {
    if c.action.Enable? {
      NumeralExactly(fields[3], c.action.seconds);
    }
  }

  lemma WrittenIsParsed(text: string, c: Command)
    requires Constructible(c) && Writes(text, c)
    ensures ParseFields(Split(Trim(text), '|')) == Ok(c)
  {
    var pre, verb, argument, post :|
      && AllSpace(pre) && AllSpace(post)
      && text == pre + Line(c.id, verb, argument) + post
      && ActionText(verb, argument, c.action);
    LineIsPlain(c, verb, argument);
    LineEnds(c.id, verb, argument);
    TrimSkips(pre, Line(c.id, verb, argument), post);
    SplitJoin([CONTROL_VERSION, c.id, verb, argument], '|');
    if c.action.Enable? {
      NumeralExactly(argument, c.action.seconds);
    }
  }

  // ── Round trips ────────────────────────────────────────────────────────────

  /** What `encode` prints is one of the accepted texts. */
  lemma TextWrites(c: Command)
    requires Constructible(c)
    ensures Writes(Text(c), c)
  {
    match c.action
    case Enable(seconds) =>
      ParseShow(seconds);
      NumeralExactly(Show(seconds), seconds);
      TextIsLine(c, "enable", Show(seconds));
    case Disable =>
      TextIsLine(c, "disable", "0");
  }

  lemma TextIsLine(c: Command, verb: string, argument: string)
    requires ActionText(verb, argument, c.action)
    requires Text(c) == CONTROL_VERSION + "|" + c.id + ("|" + verb + "|") + argument
    ensures Writes(Text(c), c)
  {
    JoinFour(CONTROL_VERSION, c.id, verb, argument);
    assert Text(c) == "" + Line(c.id, verb, argument) + "";
    assert AllSpace("");
  }

  lemma TextFits(c: Command)
    requires Constructible(c)
    ensures |EncodeCommand(c)| <= MAX_COMMAND_BYTES
  {
    if c.action.Enable? {
      ShowValue(c.action.seconds);
      assert PowerOfTen(5) == 100000;
      ShowLength(c.action.seconds, 5, 100000);
    }
    forall x | x in Text(c) ensures x < '\U{80}' {
      assert x in c.id ==> IsIdChar(x);
    }
    AsciiLength(Text(c));
  }

  /** `parse(encode(c)) == c` for every command the constructors accept. */
  lemma ParseEncode(c: Command)
    requires Constructible(c)
    ensures Parse(EncodeCommand(c)) == Ok(c)
  {
    TextWrites(c);
    TextFits(c);
    DecodeInverts(Text(c));
    ParseExactly(EncodeCommand(c), c);
  }

  /** Whatever form a command arrived in, what is relayed parses to the same command. */
  lemma ReencodeKeepsCommand(payload: seq<Byte>, c: Command)
    requires Parse(payload) == Ok(c)
    ensures Parse(EncodeCommand(c)) == Ok(c)
  {
    ParseExactly(payload, c);
    ParseEncode(c);
  }
}
