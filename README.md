# Config parser model

A Dafny model of a small Ruby configuration-file parser. A configuration
file is a sequence of lines. After surrounding whitespace is stripped
from a line, it is one of four things:

- an empty line, which is a *new line* and is skipped;
- a line starting with `#`, which is a *comment* and is skipped;
- a line of the form `key = value`, which is a *definition*;
- anything else, which is malformed.

For a definition, the line is split at its first `=`, and key and value
are stripped again. The value `true` becomes the boolean true, `false`
becomes false, and any other text is kept verbatim. Definitions are
merged into the result in file order, so a later definition of a key
overwrites an earlier one. The first malformed line aborts the parse
with an error that names that line's 1-based number. A line can be
malformed in two ways:

- "Invalid definition": the line has no `=`.
- "No value definition found": the value is empty after stripping.

Files:

- `ruby_string.dfy` (module `RubyString`) has the two Ruby string
  operations the parser relies on. `Strip` models `String#strip` and
  `Split2` models `split("=", 2)`. It also has decimal rendering of line
  numbers (`NatToString`) and the lemmas about all three.
- `config_parser.dfy` (module `ConfigParser`) has the data model:
  - `Value`: a boolean or a string;
  - `LineKind`: new line, comment, or definition with its key and value;
  - `ParseError`: the two errors, each with its line number;
  - `Result`;
  - `Config`: a map from key to value.

  It also has the three operations: `ParseValueDefinition`, `ParseLine`
  and `Results`. The fold `ParseUpTo`/`ParseLines` is the specification
  for the imperative `Results` loop.
- `config_parser_properties.dfy` (module `ConfigParserProperties`) has the
  lemmas:
  - how single lines are classified;
  - that whitespace does not matter;
  - the fail-fast rule: the first malformed line decides the error;
  - the last-write-wins rule;
  - that the result's keys are exactly the defined keys;
  - the configuration the test suite expects from its valid file.

## Model

| member | source | states |
|---|---|---|
| RubyString.StripSpec | classes/config_parser.rb:64 | `Strip(s)` is a slice `s[i..j]` where everything before `i` and after `j` is whitespace, and the slice, if non-empty, starts and ends with non-whitespace |
| RubyString.StripAt | classes/config_parser.rb:64 | any slice with that shape is the strip: the strip is unique |
| RubyString.StripIdempotent | classes/config_parser.rb:92-93 | stripping an already stripped text changes nothing |
| RubyString.StripPadding | classes/config_parser.rb:64 | whitespace added on either side of a text does not change its strip |
| RubyString.StripEmpty | classes/config_parser.rb:68 | the strip is empty exactly when the text is all whitespace |
| RubyString.StripHead | classes/config_parser.rb:73 | a text starting with non-whitespace keeps that first character when stripped |
| RubyString.StripKeeps | classes/config_parser.rb:78-81 | a non-whitespace character occurs in the strip exactly when it occurs in the text |
| RubyString.IndexOf | classes/config_parser.rb:78 | the first occurrence of the separator, or the length when there is none |
| RubyString.Split2 | classes/config_parser.rb:78 | the split has at most two parts; none for the empty text; exactly one, the text itself, when the separator is absent |
| RubyString.Split2Parts | classes/config_parser.rb:78 | a two-part split rebuilds the text as first part, separator, second part, and the first part has no separator: the cut is at the first one |
| RubyString.Split2At | classes/config_parser.rb:78 | cutting at the first occurrence of the separator is the two-part split |
| RubyString.SplitUnique | classes/config_parser.rb:78 | a text has only one decomposition with no separator in its first part |
| RubyString.NatToString | classes/config_parser.rb:87 | the rendering of a line number is a non-empty digit string without a leading zero whose decimal value is the number |
| ConfigParser.Message | classes/config_parser.rb:86-87 | an error message is its kind's fixed text followed by the digits of the offending line number (lines 95-96 give the second kind's text) |
| ConfigParser.ParseValueDefinition | classes/config_parser.rb:108-118 | the result is true exactly for `true`, false exactly for `false`, and the unchanged text for anything else |
| ConfigParser.ParseLine | classes/config_parser.rb:62-104 | an error always carries the line number it was given |
| ConfigParser.FailurePersists | classes/config_parser.rb:34-38 | once a prefix of the file has failed, no further line changes the outcome |
| ConfigParser.Results | classes/config_parser.rb:28-54 | the loop over the lines with its merges returns the file-order fold `ParseLines`: the configuration, or the first line's error |
| ConfigParserProperties.BlankLine | classes/config_parser.rb:64-70 | a line is a new line exactly when it is all whitespace |
| ConfigParserProperties.CommentLine | classes/config_parser.rb:72-75 | a line is a comment exactly when its first non-whitespace character is `#` |
| ConfigParserProperties.MissingSeparator | classes/config_parser.rb:78-88 | a line fails with "invalid definition" exactly when it is neither blank nor a comment and has no `=` |
| ConfigParserProperties.SeparatorInsideStrip | classes/config_parser.rb:64-78 | an `=` in a line lies inside the stripped part of that line |
| ConfigParserProperties.DefinitionHead | classes/config_parser.rb:64-78 | for `pre=post` with no `=` in `pre`, when `pre` is not a comment, the stripped line is not empty and does not start with `#` |
| ConfigParserProperties.DefinitionCut | classes/config_parser.rb:78 | the stripped `pre=post` is cut at the `=` that follows `pre`, into what remains of `pre` and of `post` |
| ConfigParserProperties.KeyPart | classes/config_parser.rb:92 | the key part of the stripped line strips to the strip of `pre` |
| ConfigParserProperties.ValuePart | classes/config_parser.rb:93 | the value part of the stripped line strips to the strip of `post` |
| ConfigParserProperties.DefinitionParts | classes/config_parser.rb:78-93 | the key and value the parser extracts from `pre=post` are the strips of `pre` and `post` |
| ConfigParserProperties.DefinitionLine | classes/config_parser.rb:78-103 | `pre=post`, with no `=` in `pre` and `pre` not a comment, fails with "no value definition" when `post` is blank and otherwise defines stripped `pre` as the coerced stripped `post` |
| ConfigParserProperties.DefinitionShape | classes/config_parser.rb:92-101 | a defined key is stripped and has no `=`; a text value is non-empty and stripped |
| ConfigParserProperties.LinePadding | classes/config_parser.rb:63-64 | whitespace around a whole line does not change how it parses |
| ConfigParserProperties.NoSeparatorInSpace | classes/config_parser.rb:78 | whitespace never contains the separator |
| ConfigParserProperties.PaddedDefinition | classes/config_parser.rb:90-93 | whitespace around the key, the `=` and the value does not change how a definition parses |
| ConfigParserProperties.SuccessUpTo | classes/config_parser.rb:34-38 | a prefix of the file parses exactly when each of its lines does |
| ConfigParserProperties.SuccessIffEveryLine | classes/config_parser.rb:34-38 | the file parses exactly when every line does |
| ConfigParserProperties.FailFast | classes/config_parser.rb:34-38 | if line `i` is the first malformed line, the parse fails with that line's error, which names line `i + 1` |
| ConfigParserProperties.FailureIsFirstBadLineUpTo | classes/config_parser.rb:34-38 | a failed prefix fails with the error of some line before which every line is fine |
| ConfigParserProperties.FailureIsFirstBadLine | classes/config_parser.rb:34-38 | a failed parse has the error of the first malformed line |
| ConfigParserProperties.DefinedKeysUpTo | classes/config_parser.rb:43-47 | a key is in a prefix's result exactly when some line of the prefix defines it |
| ConfigParserProperties.DefinedKeys | classes/config_parser.rb:30-47 | a key is in the result exactly when some line defines it |
| ConfigParserProperties.LatestDefinitionWinsUpTo | classes/config_parser.rb:43-47 | in a prefix, a key maps to the value of its last definition |
| ConfigParserProperties.LatestDefinitionWins | classes/config_parser.rb:44-47 | a key maps to the value of its last definition in the file |
| ConfigParserProperties.OnlyBlankAndCommentsUpTo | classes/config_parser.rb:30-43 | a prefix of blank and comment lines parses to the empty configuration |
| ConfigParserProperties.OnlyBlankAndComments | classes/config_parser.rb:29-30 | a file of only blank and comment lines parses to the empty configuration |
| ConfigParserProperties.ParseUpToPrefix | classes/config_parser.rb:34-38 | the parse of the first `k` lines does not depend on the lines after them |
| ConfigParserProperties.BlankOrCommentAddsNothing | classes/config_parser.rb:40-43 | appending a blank or comment line leaves the outcome unchanged |
| ConfigParserProperties.TidyLine | classes/config_parser.rb:64 | a text without whitespace at either end is its own strip |
| ConfigParserProperties.ExampleLine | classes/config_parser.rb:78-103 | `key=value` with tidy key and value defines the key as the coerced value |
| ConfigParserProperties.ValidFileFold | classes/config_parser.rb:28-54 | five lines defining the test data's keys give exactly the expected configuration |
| ConfigParserProperties.ValidFileExample | tests/tc_config_parser.rb:23-34 | the lines of the valid test file parse to the configuration the test suite expects: host, user, log file path, verbose true and test mode `on` |
| ConfigParserProperties.HostLine | tests/tc_config_parser.rb:24 | `host=test.com` defines host as the text `test.com` |
| ConfigParserProperties.UserLine | tests/tc_config_parser.rb:25 | `user=user` defines user as the text `user` |
| ConfigParserProperties.LogFileLine | tests/tc_config_parser.rb:26 | `log_file_path=/tmp/logfile.log` defines the path as text |
| ConfigParserProperties.VerboseLine | tests/tc_config_parser.rb:27 | `verbose=true` defines verbose as the boolean true |
| ConfigParserProperties.TestModeLine | tests/tc_config_parser.rb:28 | `test_mode=on` keeps `on` as text, not a boolean |
| ConfigParserProperties.ValueWithSeparatorExample | classes/config_parser.rb:78 | in `url=a=b` only the first `=` separates, so the value is `a=b` |
| ConfigParserProperties.NotAnAssignmentExample | classes/config_parser.rb:81-88 | a line without `=` fails with "invalid definition" on its own number |
| ConfigParserProperties.EmptyValueExample | classes/config_parser.rb:94-97 | `key=   ` fails with "no value definition" on its own number |

## Left out

- Reading the file (`File.open` and `each_with_index`) is not modelled. The file is given as its sequence of lines. Each line's trailing newline is whitespace, which `strip` removes anyway.
- The class-level `parse` and the constructor only store the file path and call `results`. They hold no logic of their own, so `Results` takes the lines directly.
- `ParseException` and raising it are modelled as the `Failure` case of a `Result` that carries a `ParseError`. `Message` gives the text the exception would carry.
- The one-entry hash a definition line returns is modelled as the `Definition` variant carrying its key and value. `merge!` of that hash is the map update `m[key := value]`.
- `Strip` treats NUL, tab, line feed, vertical tab, form feed, carriage return and space as whitespace, at both ends. Strings are sequences of characters, so encodings and invalid byte sequences are not modelled.
- ConfigParser.ParseLine: the function's own contract only fixes the line number in its errors. Its full classification is stated by the `ConfigParserProperties` lemmas (`BlankLine`, `CommentLine`, `MissingSeparator`, `DefinitionLine`, `DefinitionShape`), which keeps the function cheap to unfold.
- The test files under `data/` are not part of this model. `ValidFileExample` uses the five definitions that the test suite's expected configuration implies, one per line. The variants with extra whitespace, blank lines or a repeated key are covered by the general lemmas `LinePadding`, `PaddedDefinition`, `BlankOrCommentAddsNothing` and `LatestDefinitionWins`.
