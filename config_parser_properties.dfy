/**
  What the config parser promises: how a single line is classified, that
  the split is at the first `=` and whitespace around key, `=` and value
  does not matter, that the last definition of a key wins, that blank and
  comment lines add nothing, and that the first malformed line decides the
  error.
 */
module ConfigParserProperties {
  import opened RubyString
  import opened ConfigParser

  /** A line the parser skips: blank once stripped, or starting with `#`. */
  predicate IsBlankOrComment(line: string) {
    var t := Strip(line);
    t == [] || t[0] == '#'
  }

  /** Line `i` (0-based) is a definition of `key`. */
  predicate Defines(lines: seq<string>, i: nat, key: string)
    requires i < |lines|
  {
    var r := LineAt(lines, i);
    r.Success? && r.value.Definition? && r.value.key == key
  }

  // ---------------------------------------------------------------------
  // One line

  /** A line is a new line exactly when it is all whitespace. */
  lemma BlankLine(line: string, n: nat)
    ensures ParseLine(line, n) == Success(NewLine) <==> AllSpace(line)
  {
    StripEmpty(line);
  }

  /** A line is a comment exactly when its first non-space character is `#`,
      whatever follows it. */
  lemma CommentLine(line: string, n: nat)
    ensures ParseLine(line, n) == Success(Comment) <==>
      var t := Strip(line); t != [] && t[0] == '#'
  {
  }

  /** A line that is neither blank nor a comment fails with "invalid
      definition" on its own number exactly when it has no `=`. */
  lemma MissingSeparator(line: string, n: nat)
    ensures ParseLine(line, n) == Failure(InvalidDefinition(n)) <==>
      !IsBlankOrComment(line) && '=' !in line
  {
    StripKeeps(line, '=');
  }

  /** Where the stripped slice of a line with an `=` in it lies: around the `=`. */
  lemma SeparatorInsideStrip(line: string, p: nat, i: nat, j: nat)
    requires p < |line| && line[p] == '=' && IsStripOf(line, i, j)
    ensures i <= p < j
    ensures AllSpace(line[..i]) && AllSpace(line[j..])
  {
    StripOfEnds(line, i, j);
  }

  /** The first visible character of `pre + "=" + post` is not `#` when
      `pre` has no `=` and does not itself start (visibly) with `#`. */
  lemma DefinitionHead(pre: string, post: string, i: nat, j: nat)
    requires '=' !in pre
    requires var k := Strip(pre); k == [] || k[0] != '#'
    requires IsStripOf(pre + "=" + post, i, j)
    ensures i < j && (pre + "=" + post)[i] != '#'
  {
    var line := pre + "=" + post;
    var p := |pre|;
    SeparatorInsideStrip(line, p, i, j);
    if i < p {
      assert pre[..i] == line[..i];
      assert pre == pre[..i] + pre[i..] + [];
      StripPadding(pre[..i], pre[i..], []);
      assert pre[i..][0] == line[i];
      StripHead(pre[i..]);
    }
  }

  /** The stripped `pre + "=" + post` is cut at the `=` that follows `pre`. */
  lemma DefinitionCut(pre: string, post: string, i: nat, j: nat)
    requires '=' !in pre
    requires IsStripOf(pre + "=" + post, i, j)
    ensures i <= |pre| < j
    ensures var line := pre + "=" + post;
      Split2(line[i..j], '=') == [line[i..|pre|], line[|pre| + 1..j]]
  {
    var line := pre + "=" + post;
    var p := |pre|;
    SeparatorInsideStrip(line, p, i, j);
    var t := line[i..j];
    assert t[p - i] == '=';
    assert t[..p - i] == pre[i..];
    Split2At(t, '=', p - i);
    assert t[..p - i] == line[i..p];
    assert t[p - i + 1..] == line[p + 1..j];
  }

  /** What remains of `pre` in the stripped line strips to the stripped `pre`. */
  lemma KeyPart(pre: string, post: string, i: nat, j: nat)
    requires '=' !in pre
    requires IsStripOf(pre + "=" + post, i, j)
    ensures i <= |pre| && Strip((pre + "=" + post)[i..|pre|]) == Strip(pre)
  {
    var line := pre + "=" + post;
    SeparatorInsideStrip(line, |pre|, i, j);
    assert pre == line[..i] + line[i..|pre|] + [];
    StripPadding(line[..i], line[i..|pre|], []);
  }

  /** What remains of `post` in the stripped line strips to the stripped `post`. */
  lemma ValuePart(pre: string, post: string, i: nat, j: nat)
    requires '=' !in pre
    requires IsStripOf(pre + "=" + post, i, j)
    ensures |pre| < j && Strip((pre + "=" + post)[|pre| + 1..j]) == Strip(post)
  {
    var line := pre + "=" + post;
    SeparatorInsideStrip(line, |pre|, i, j);
    assert post == [] + line[|pre| + 1..j] + line[j..];
    StripPadding([], line[|pre| + 1..j], line[j..]);
  }

  /** Cutting the stripped `pre + "=" + post` at its first `=` gives parts
      that strip to the stripped `pre` and the stripped `post`. */
  lemma DefinitionParts(pre: string, post: string, i: nat, j: nat)
    requires '=' !in pre
    requires IsStripOf(pre + "=" + post, i, j)
    ensures var parts := Split2((pre + "=" + post)[i..j], '=');
      |parts| == 2 && Strip(parts[0]) == Strip(pre) && Strip(parts[1]) == Strip(post)
  {
    DefinitionCut(pre, post, i, j);
    KeyPart(pre, post, i, j);
    ValuePart(pre, post, i, j);
  }

  /** A line that is not blank and not a comment, cut at its first `=`:
      the key is the stripped text before it and the value the stripped
      text after it (which may contain more `=`); an empty value fails with
      "no value definition" on the line's number. */
  lemma DefinitionLine(pre: string, post: string, n: nat)
    requires '=' !in pre
    requires var k := Strip(pre); k == [] || k[0] != '#'
    ensures ParseLine(pre + "=" + post, n) ==
      var value := Strip(post);
      if value == [] then Failure(NoValueDefinition(n))
      else Success(Definition(Strip(pre), ParseValueDefinition(value)))
  {
    var line := pre + "=" + post;
    StripSpec(line);
    var t := Strip(line);
    var i: nat, j: nat :| IsStripOf(line, i, j) && t == line[i..j];
    DefinitionHead(pre, post, i, j);
    DefinitionParts(pre, post, i, j);
  }

  /** A definition's key has no surrounding whitespace and no `=`, and a
      text value is non-empty and has no surrounding whitespace. */
  lemma DefinitionShape(line: string, n: nat)
    requires ParseLine(line, n).Success? && ParseLine(line, n).value.Definition?
    ensures var d := ParseLine(line, n).value;
      && Strip(d.key) == d.key && '=' !in d.key
      && (d.value.Str? ==> d.value.s != [] && Strip(d.value.s) == d.value.s)
  {
    var t := Strip(line);
    var parts := Split2(t, '=');
    Split2Parts(t, '=');
    StripIdempotent(parts[0]);
    StripIdempotent(parts[1]);
    StripKeeps(parts[0], '=');
  }

  /** Whitespace around the whole line does not change its classification. */
  lemma LinePadding(w1: string, line: string, w2: string, n: nat)
    requires AllSpace(w1) && AllSpace(w2)
    ensures ParseLine(w1 + line + w2, n) == ParseLine(line, n)
  {
    StripPadding(w1, line, w2);
  }

  lemma NoSeparatorInSpace(w: string)
    requires AllSpace(w)
    ensures '=' !in w
  {
  }

  /** Whitespace around the key, the `=` and the value does not change the
      key or the value defined. */
  lemma PaddedDefinition(key: string, value: string, w1: string, w2: string, w3: string, w4: string, n: nat)
    requires AllSpace(w1) && AllSpace(w2) && AllSpace(w3) && AllSpace(w4)
    requires '=' !in key
    requires var k := Strip(key); k == [] || k[0] != '#'
    ensures ParseLine((w1 + key + w2) + "=" + (w3 + value + w4), n) == ParseLine(key + "=" + value, n)
  {
    NoSeparatorInSpace(w1);
    NoSeparatorInSpace(w2);
    StripPadding(w1, key, w2);
    StripPadding(w3, value, w4);
    DefinitionLine(w1 + key + w2, w3 + value + w4, n);
    DefinitionLine(key, value, n);
  }

  // ---------------------------------------------------------------------
  // The whole file

  /** The parse of a prefix succeeds exactly when each of its lines does. */
  lemma {:induction false} SuccessUpTo(lines: seq<string>, k: nat)
    requires k <= |lines|
    ensures ParseUpTo(lines, k).Success? <==> forall i :: 0 <= i < k ==> LineAt(lines, i).Success?
  {
    if k > 0 {
      SuccessUpTo(lines, k - 1);
    }
  }

  /** The file parses exactly when every line does. */
  lemma SuccessIffEveryLine(lines: seq<string>)
    ensures ParseLines(lines).Success? <==> forall i :: 0 <= i < |lines| ==> LineAt(lines, i).Success?
  {
    SuccessUpTo(lines, |lines|);
  }

  /** Fail-fast: when line `i` is the first malformed line, its error, with
      its 1-based number, is the outcome of the whole parse, whatever the
      lines after it hold. */
  lemma FailFast(lines: seq<string>, i: nat)
    requires i < |lines| && LineAt(lines, i).Failure?
    requires forall j :: 0 <= j < i ==> LineAt(lines, j).Success?
    ensures ParseLines(lines) == Failure(LineAt(lines, i).error)
    ensures ParseLines(lines).error.line == i + 1
  {
    SuccessUpTo(lines, i);
    FailurePersists(lines, i + 1, |lines|);
  }

  /** A failed parse names the first malformed line: that line fails with
      exactly the reported error, and every line before it is well formed. */
  lemma {:induction false} FailureIsFirstBadLineUpTo(lines: seq<string>, k: nat)
    requires k <= |lines| && ParseUpTo(lines, k).Failure?
    ensures exists i :: (0 <= i < k && LineAt(lines, i) == Failure(ParseUpTo(lines, k).error)
      && ParseUpTo(lines, k).error.line == i + 1
      && forall j :: 0 <= j < i ==> LineAt(lines, j).Success?)
  {
    if ParseUpTo(lines, k - 1).Failure? {
      FailureIsFirstBadLineUpTo(lines, k - 1);
    } else {
      SuccessUpTo(lines, k - 1);
      assert LineAt(lines, k - 1) == Failure(ParseUpTo(lines, k).error);
    }
  }

  lemma FailureIsFirstBadLine(lines: seq<string>)
    requires ParseLines(lines).Failure?
    ensures exists i :: (0 <= i < |lines| && LineAt(lines, i) == Failure(ParseLines(lines).error)
      && ParseLines(lines).error.line == i + 1
      && forall j :: 0 <= j < i ==> LineAt(lines, j).Success?)
  {
    FailureIsFirstBadLineUpTo(lines, |lines|);
  }

  /** The keys of the result are exactly the keys some line defines. */
  lemma {:induction false} DefinedKeysUpTo(lines: seq<string>, k: nat, key: string)
    requires k <= |lines| && ParseUpTo(lines, k).Success?
    ensures key in ParseUpTo(lines, k).value <==> exists i :: 0 <= i < k && Defines(lines, i, key)
  {
    if k > 0 {
      DefinedKeysUpTo(lines, k - 1, key);
      if Defines(lines, k - 1, key) {
        assert key in ParseUpTo(lines, k).value;
      }
    }
  }

  lemma DefinedKeys(lines: seq<string>, key: string)
    requires ParseLines(lines).Success?
    ensures key in ParseLines(lines).value <==> exists i :: 0 <= i < |lines| && Defines(lines, i, key)
  {
    DefinedKeysUpTo(lines, |lines|, key);
  }

  /** Last write wins: a key is mapped to the value of its latest definition. */
  lemma {:induction false} LatestDefinitionWinsUpTo(lines: seq<string>, k: nat, i: nat, key: string, v: Value)
    requires i < k <= |lines| && ParseUpTo(lines, k).Success?
    requires LineAt(lines, i) == Success(Definition(key, v))
    requires forall j :: i < j < k ==> !Defines(lines, j, key)
    ensures key in ParseUpTo(lines, k).value && ParseUpTo(lines, k).value[key] == v
  {
    if i < k - 1 {
      LatestDefinitionWinsUpTo(lines, k - 1, i, key, v);
      assert !Defines(lines, k - 1, key);
    }
  }

  lemma LatestDefinitionWins(lines: seq<string>, i: nat, key: string, v: Value)
    requires i < |lines| && ParseLines(lines).Success?
    requires LineAt(lines, i) == Success(Definition(key, v))
    requires forall j :: i < j < |lines| ==> !Defines(lines, j, key)
    ensures key in ParseLines(lines).value && ParseLines(lines).value[key] == v
  {
    LatestDefinitionWinsUpTo(lines, |lines|, i, key, v);
  }

  /** A file of blank and comment lines only parses to the empty configuration. */
  lemma {:induction false} OnlyBlankAndCommentsUpTo(lines: seq<string>, k: nat)
    requires k <= |lines|
    requires forall i :: 0 <= i < k ==> IsBlankOrComment(lines[i])
    ensures ParseUpTo(lines, k) == Success(map[])
  {
    if k > 0 {
      OnlyBlankAndCommentsUpTo(lines, k - 1);
    }
  }

  lemma OnlyBlankAndComments(lines: seq<string>)
    requires forall i :: 0 <= i < |lines| ==> IsBlankOrComment(lines[i])
    ensures ParseLines(lines) == Success(map[])
  {
    OnlyBlankAndCommentsUpTo(lines, |lines|);
  }

  /** The parse of a prefix does not look past the prefix. */
  lemma {:induction false} ParseUpToPrefix(lines: seq<string>, more: seq<string>, k: nat)
    requires k <= |lines|
    ensures ParseUpTo(lines + more, k) == ParseUpTo(lines, k)
  {
    if k > 0 {
      ParseUpToPrefix(lines, more, k - 1);
      assert (lines + more)[k - 1] == lines[k - 1];
    }
  }

  /** Appending a blank or comment line leaves the outcome unchanged. */
  lemma BlankOrCommentAddsNothing(lines: seq<string>, line: string)
    requires IsBlankOrComment(line)
    ensures ParseLines(lines + [line]) == ParseLines(lines)
  {
    ParseUpToPrefix(lines, [line], |lines|);
    assert (lines + [line])[|lines|] == line;
  }

  // ---------------------------------------------------------------------
  // Examples

  lemma TidyLine(s: string)
    requires s != [] && !IsSpace(s[0]) && !IsSpace(s[|s| - 1])
    ensures Strip(s) == s
  {
    assert s[..0] == [] && s[|s|..] == [] && s[0..|s|] == s;
    StripAt(s, 0, |s|);
  }

  /** The fold over the five definitions of the repository's test data. */
  lemma ValidFileFold(lines: seq<string>)
    requires |lines| == 5
    requires LineAt(lines, 0) == Success(Definition("host", Str("test.com")))
    requires LineAt(lines, 1) == Success(Definition("user", Str("user")))
    requires LineAt(lines, 2) == Success(Definition("log_file_path", Str("/tmp/logfile.log")))
    requires LineAt(lines, 3) == Success(Definition("verbose", Bool(true)))
    requires LineAt(lines, 4) == Success(Definition("test_mode", Str("on")))
    ensures ParseLines(lines)
         == Success(map["host" := Str("test.com"), "user" := Str("user"),
                        "log_file_path" := Str("/tmp/logfile.log"),
                        "verbose" := Bool(true), "test_mode" := Str("on")])
  {
    var m := map["host" := Str("test.com")];
    assert ParseUpTo(lines, 1) == Success(m);
    m := m["user" := Str("user")];
    assert ParseUpTo(lines, 2) == Success(m);
    m := m["log_file_path" := Str("/tmp/logfile.log")];
    assert ParseUpTo(lines, 3) == Success(m);
    m := m["verbose" := Bool(true)];
    assert ParseUpTo(lines, 4) == Success(m);
  }

  /** The configuration the repository's test suite expects from its valid file. */
  lemma ValidFileExample(lines: seq<string>)
    requires lines == ["host=test.com", "user=user", "log_file_path=/tmp/logfile.log",
                       "verbose=true", "test_mode=on"]
    ensures ParseLines(lines)
         == Success(map["host" := Str("test.com"), "user" := Str("user"),
                        "log_file_path" := Str("/tmp/logfile.log"),
                        "verbose" := Bool(true), "test_mode" := Str("on")])
  {
    HostLine(lines[0], 1);
    UserLine(lines[1], 2);
    LogFileLine(lines[2], 3);
    VerboseLine(lines[3], 4);
    TestModeLine(lines[4], 5);
    ValidFileFold(lines);
  }

  lemma ExampleLine(line: string, n: nat, key: string, value: string)
    requires line == key + "=" + value
    requires key != [] && !IsSpace(key[0]) && !IsSpace(key[|key| - 1]) && key[0] != '#' && '=' !in key
    requires value != [] && !IsSpace(value[0]) && !IsSpace(value[|value| - 1])
    ensures ParseLine(line, n) == Success(Definition(key, ParseValueDefinition(value)))
  {
    TidyLine(key);
    TidyLine(value);
    DefinitionLine(key, value, n);
  }

  lemma HostLine(line: string, n: nat)
    requires line == "host=test.com"
    ensures ParseLine(line, n) == Success(Definition("host", Str("test.com")))
  {
    ExampleLine(line, n, "host", "test.com");
  }

  lemma UserLine(line: string, n: nat)
    requires line == "user=user"
    ensures ParseLine(line, n) == Success(Definition("user", Str("user")))
  {
    ExampleLine(line, n, "user", "user");
  }

  lemma LogFileLine(line: string, n: nat)
    requires line == "log_file_path=/tmp/logfile.log"
    ensures ParseLine(line, n) == Success(Definition("log_file_path", Str("/tmp/logfile.log")))
  {
    ExampleLine(line, n, "log_file_path", "/tmp/logfile.log");
  }

  /** `true` is coerced to a boolean. */
  lemma VerboseLine(line: string, n: nat)
    requires line == "verbose=true"
    ensures ParseLine(line, n) == Success(Definition("verbose", Bool(true)))
  {
    ExampleLine(line, n, "verbose", "true");
  }

  /** `on` is not a boolean literal and stays text. */
  lemma TestModeLine(line: string, n: nat)
    requires line == "test_mode=on"
    ensures ParseLine(line, n) == Success(Definition("test_mode", Str("on")))
  {
    ExampleLine(line, n, "test_mode", "on");
  }

  /** Only the first `=` separates: the value keeps the second one. */
  lemma ValueWithSeparatorExample(line: string, n: nat)
    requires line == "url=a=b"
    ensures ParseLine(line, n) == Success(Definition("url", Str("a=b")))
  {
    ExampleLine(line, n, "url", "a=b");
  }

  /** A line without `=` is an invalid definition. */
  lemma NotAnAssignmentExample(line: string, n: nat)
    requires line == "notanassignment"
    ensures ParseLine(line, n) == Failure(InvalidDefinition(n))
  {
    TidyLine(line);
    MissingSeparator(line, n);
  }

  /** A line `key=   ` has no value definition. */
  lemma EmptyValueExample(line: string, n: nat)
    requires line == "key=   "
    ensures ParseLine(line, n) == Failure(NoValueDefinition(n))
  {
    TidyLine("key");
    assert AllSpace("   ");
    StripAllSpace("   ");
    assert line == "key" + "=" + "   ";
    DefinitionLine("key", "   ", n);
  }
}
