/**
  The line-oriented `key=value` configuration parser: each line is
  classified as blank, comment or definition, definition values are
  coerced (`true`/`false` become booleans), and the definitions are
  accumulated in file order with the last write winning. The first
  malformed line aborts the parse with an error naming its 1-based number.
 */
module ConfigParser {
  import opened RubyString

  /** A coerced value: a boolean or the verbatim text. */
  datatype Value = Bool(b: bool) | Str(s: string)

  /** The classification of one line. A definition carries the one entry
      it contributes to the result. */
  datatype LineKind = NewLine | Comment | Definition(key: string, value: Value)

  /** The two ways a line can be malformed, with the line's 1-based number. */
  datatype ParseError = InvalidDefinition(line: nat) | NoValueDefinition(line: nat)

  datatype Result<T> = Success(value: T) | Failure(error: ParseError)

  /** The parsed configuration: each key with its value. */
  type Config = map<string, Value>

  /** The first part of an error's message, before the line number. */
  function MessagePrefix(e: ParseError): string {
    match e
    case InvalidDefinition(_) => "Invalid definition on line "
    case NoValueDefinition(_) => "No value definition found on line "
  }

  /** The human-readable message, which names the offending line. */
  function Message(e: ParseError): (msg: string)
    ensures |MessagePrefix(e)| < |msg| && msg[..|MessagePrefix(e)|] == MessagePrefix(e)
    ensures IsDigits(msg[|MessagePrefix(e)|..]) && DecimalValue(msg[|MessagePrefix(e)|..]) == e.line
  {
    var msg := MessagePrefix(e) + NatToString(e.line);
    assert msg[|MessagePrefix(e)|..] == NatToString(e.line);
    msg
  }

  /** Coercion of a trimmed value: exactly `true` and exactly `false` become
      booleans; every other text is kept as it is. */
  function ParseValueDefinition(definition: string): (v: Value)
    ensures v == Bool(true) <==> definition == "true"
    ensures v == Bool(false) <==> definition == "false"
    ensures v.Str? <==> definition != "true" && definition != "false"
    ensures v.Str? ==> v.s == definition
  {
    match definition
    case "true" => Bool(true)
    case "false" => Bool(false)
    case _ => Str(definition)
  }

  /** Classifies one line, given its 1-based number for error reporting. */
  function ParseLine(line: string, lineNumber: nat): (r: Result<LineKind>)
    ensures r.Failure? ==> r.error.line == lineNumber
  {
    var line := Strip(line);
    if line == [] then Success(NewLine)
    else if line[0] == '#' then Success(Comment)
    else
      var splitByEquals := Split2(line, '=');
      if |splitByEquals| == 1 then Failure(InvalidDefinition(lineNumber))
      else
        var valueName := Strip(splitByEquals[0]);
        var valueDefinition := Strip(splitByEquals[1]);
        if valueDefinition == [] then Failure(NoValueDefinition(lineNumber))
        else
          Success(Definition(valueName, ParseValueDefinition(valueDefinition)))
  }

  /** The line at index `i` of the file is line number `i + 1`. */
  function LineAt(lines: seq<string>, i: nat): Result<LineKind>
    requires i < |lines|
  {
    ParseLine(lines[i], i + 1)
  }

  /** The result after taking one classified line into account:
      a definition inserts or overwrites its key, anything else changes nothing. */
  function Record(m: Config, kind: LineKind): Config {
    if kind.Definition? then m[kind.key := kind.value] else m
  }

  /** The parse of the first `k` lines as a fold in file order: the
      configuration they define, or the error of the first malformed one. */
  function ParseUpTo(lines: seq<string>, k: nat): Result<Config>
    requires k <= |lines|
    decreases k
  {
    if k == 0 then Success(map[])
    else
      match ParseUpTo(lines, k - 1)
      case Failure(e) => Failure(e)
      case Success(m) =>
        match LineAt(lines, k - 1)
        case Failure(e) => Failure(e)
        case Success(kind) => Success(Record(m, kind))
  }

  /** The parse of the whole file. */
  function ParseLines(lines: seq<string>): Result<Config> {
    ParseUpTo(lines, |lines|)
  }

  /** Once the first `k` lines have failed, no later line changes the outcome. */
  lemma {:induction false} FailurePersists(lines: seq<string>, k: nat, k': nat)
    requires k <= k' <= |lines|
    requires ParseUpTo(lines, k).Failure?
    ensures ParseUpTo(lines, k') == ParseUpTo(lines, k)
    decreases k'
  {
    if k < k' {
      FailurePersists(lines, k, k' - 1);
    }
  }

  /** The parse itself: one pass over the lines, merging each definition
      into the result, stopping at the first malformed line. */
  method Results(lines: seq<string>) returns (r: Result<Config>)
    ensures r == ParseLines(lines)
  {
    var finalResults: Config := map[];
    var counter := 0;
    while counter < |lines|
      invariant 0 <= counter <= |lines|
      invariant ParseUpTo(lines, counter) == Success(finalResults)
    {
      var lineParsed := ParseLine(lines[counter], counter + 1);
      if lineParsed.Failure? {
        FailurePersists(lines, counter + 1, |lines|);
        return Failure(lineParsed.error);
      }
      if lineParsed.value.Definition? {
        ghost var before := finalResults;
        var data := map[lineParsed.value.key := lineParsed.value.value];
        finalResults := finalResults + data;
        assert finalResults == Record(before, lineParsed.value);
      }
      counter := counter + 1;
    }
    return Success(finalResults);
  }
}
