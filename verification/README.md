# template — a Dafny model of its non-rendering core

`template` is a small Go command-line tool that renders a Go `text/template`
file. Before rendering, it fills the template's variables from three sources.

- A YAML vars file (`-v`).
- Repeated `--var key=value` flags, kept as strings.
- Repeated `--num key=value` flags, read as 64-bit floats.

The `Template` wrapper (template/template.go) does the following.

- It keeps the name, the body, a variable map and a snapshot of the process environment.
- It answers `.Var` and `.Env` lookups with defaults.
- It binds a set of helper functions into the template syntax.

This project models all of that except the rendering. The modules are:

| module | file | what it holds |
|---|---|---|
| `Wrappers` | wrappers.dfy | `Option` and `Result` |
| `Bytes` | bytes.dfy | Go's `byte` |
| `Text` | text.dfy | `strings.Split` and `SplitN(s, sep, 2)` for a one-character separator, `strings.Contains` for any substring, plus ASCII lower-casing, over strings of characters |
| `KeyValue` | keyvalue.dfy | the two ways entries are cut into key and value (`parseEnvVars` splits at every `=`; the flag lists cut at the first `=`), and the last-write-wins map both loops build |
| `Decimal` | decimal.dfy | `%d` printing and `strconv.ParseInt(s, 10, 64)` |
| `Base64Codec` | base64.dfy | `base64.StdEncoding` encoding and decoding (RFC 4648, section 4, with padding) |
| `Hex` | hex.dfy | `%x` of a byte slice |
| `Funcs` | funcs.dfy | the `funcMap` helpers `unix`, `time_unix`, `base64`, `base64decode`, `has_prefix`, `has_suffix`, `contains`, `port`, `sha1`, `sha256`, `sha512` |
| `Template` | template.dfy | the `Template` class with its fields, methods and lookups, and `parseEnvVars` |
| `Cli` | cli.dfy | the `Includes`, `Variables` and `Numbers` flag lists, and the variable layering done by `main` |

cmd/main.go and main.go hold the same `Variables` and `Numbers` types and the same layering code, so one `Cli` module models both. Rows below cite both files. Only cmd/main.go has the `Includes` type.

`parseEnvVars` uses `strings.Split`, not a split at the first `=`. So for an entry such as `OPTS=a=b` the value kept is `a`: the text between the first and the second `=`. `Template.EnvValueStopsAtSecondEquals` states this. The `--var` and `--num` lists, in contrast, keep everything after the first `=`.

## Model

| member | source | states |
|---|---|---|
| Template.Template.New | template/template.go:20-26 | a new template has no name, an empty body and no variables; its environment is the snapshot `parseEnvVars` builds from the given environ |
| Template.Template.FromFile | template/template.go:28-41 | `NewFromFile` once the file contents are known: the name is the path, the body is the contents, there are no variables, and the environment is the snapshot |
| Template.Template.WithName | template/template.go:52-56 | sets only the name; body, variables and environment are unchanged; returns the receiver itself |
| Template.Template.Name | template/template.go:58-64 | the name when it is non-empty, otherwise `"template"`; never empty |
| Template.Template.WithBody | template/template.go:66-75 | sets only the body (which `Body` then returns); the other fields are unchanged; returns the receiver itself |
| Template.Template.WithVar | template/template.go:77-81 | an upsert of one key in the variable map; the other fields are unchanged; returns the receiver itself |
| Template.Template.SetVar | template/template.go:83-86 | afterwards `HasVar(key)` holds and `Var(key, d)` is the new value for every defaults list `d`; `HasVar` and `Var` for every other key are as before; a repeated call simply replaces the value; name, body and environment are unchanged |
| Template.Template.HasVar | template/template.go:88-92 | true exactly when the key is in the variable map |
| Template.Template.Var | template/template.go:94-105 | the stored value when the key is set; otherwise the first default, and later defaults are ignored; with no default, the error `UnsetVariable(key)`; reads the state and changes nothing |
| Template.Template.Env | template/template.go:107-118 | as `Var`, over the environment snapshot, with the error `UnsetEnv(key)` |
| Template.MessageNamesKey | template/template.go:104-117 | the text of both lookup errors contains the missing key |
| Template.ParseEnvVars | template/template.go:305-314 | the loop builds exactly `EnvSnapshot(envVars)`, the last-write-wins map of the entries split at every `=` |
| Template.EnvSnapshotKeys | template/template.go:307-311 | a key is in the snapshot exactly when some entry containing `=` has that key before its first `=` |
| Template.EnvSnapshotLastWins | template/template.go:307-311 | a key's value comes from the last entry with that key |
| Template.EnvValueStopsAtSecondEquals | template/template.go:308-310 | `OPTS=a=b` yields `OPTS` bound to `a` |
| KeyValue.EnvPair | template/template.go:308-310 | an entry yields a pair exactly when it contains `=` |
| KeyValue.EnvPairShape | template/template.go:308-310 | the key is the text before the first `=`; the value is the text after it up to the next `=` or the end |
| KeyValue.FlagPair | cmd/main.go:59-61 | an entry yields a pair exactly when it contains `=`; the key has no `=`, and key, `=` and value glue back to the entry |
| KeyValue.EnvAndFlagPairsDiffer | main.go:44-46 | for `OPTS=a=b` the flag reading keeps `a=b` where the environment reading keeps `a` |
| KeyValue.AssignSingle | cmd/main.go:56-63 | a one-entry list yields that entry's pair alone, or the empty map when the entry has no `=` |
| KeyValue.AssignFromKeys | cmd/main.go:58-63 | a key ends in the built map exactly when it was already there or some entry defines it |
| KeyValue.AssignFromKeeps | cmd/main.go:58-63 | a key that no entry defines keeps the value it had |
| KeyValue.AssignFromLastWins | cmd/main.go:58-63 | the value of a key is the one from the last entry that defines it |
| Text.Split | template/template.go:308 | at least one piece; the first piece is the text before the first separator; one piece exactly when the separator is absent |
| Text.SplitPiecesHaveNoSeparator | template/template.go:308 | no piece contains the separator |
| Text.SplitJoin | template/template.go:308 | joining the pieces with the separator gives back the input |
| Text.SplitSecond | template/template.go:308-310 | the second piece is the text between the first and the second separator |
| Text.SplitAtFirst | cmd/main.go:59 | one or two pieces; two exactly when the separator occurs; in that case the first piece has no separator and the pieces glue back to the input |
| Text.FirstIndex | cmd/main.go:59 | the index of the first separator, or the length when there is none |
| Text.FirstIndexAt | cmd/main.go:59 | a separator with none before it is the first one |
| Text.Contains | template/template.go:244-246 | true exactly when the substring occurs at some index |
| Text.LowerAscii | template/template.go:263 | same length; each upper-case ASCII letter becomes its lower-case letter (code point + 32); every other character is unchanged |
| Text.LowerAsciiEqualFold | template/template.go:263 | strings that differ only in the case of ASCII letters lower-case to the same string |
| Cli.Includes.constructor | cmd/main.go:127 | the flag list starts empty |
| Cli.Includes.Set | cmd/main.go:31-35 | appends the value, keeping the earlier ones in order, and returns no error |
| Cli.Variables.constructor | main.go:103 | the flag list starts empty (also cmd/main.go:121) |
| Cli.Variables.Set | main.go:29-33 | appends the value in order and returns no error (also cmd/main.go:44-48) |
| Cli.Variables.Values | cmd/main.go:54-65 | the loop builds exactly the last-write-wins map of the entries cut at their first `=` (also main.go:39-50) |
| Cli.VarsKeys | main.go:43-48 | a key is in the `--var` map exactly when some entry containing `=` has it before its first `=`; entries without `=` contribute nothing |
| Cli.VarsLastWins | main.go:43-49 | for the last entry with a given key, the map holds everything after that entry's first `=`, further `=` included |
| Cli.Numbers.constructor | main.go:106 | the flag list starts empty (also cmd/main.go:124) |
| Cli.Numbers.Set | cmd/main.go:70-74 | appends the value in order and returns no error (also main.go:55-59) |
| Cli.Numbers.Values | main.go:65-81 | the loop returns exactly `NumberValues`: the map of the entries cut at their first `=` with values read as floats, stopping at the first value that does not parse with that value's error (also cmd/main.go:80-96) |
| Cli.NumbersFail | cmd/main.go:85-94 | the error is returned exactly when some entry has an `=` and a value that does not parse |
| Cli.NumbersFirstError | main.go:70-80 | the error is for the first such entry |
| Cli.NumbersSplitLikeVars | cmd/main.go:85-94 | without an error, the `--num` map has the keys `Variables.Values` would give for the same entries, each value being the parsed float |
| Cli.StringValues | cmd/main.go:206-210 | the `--var` map as template values: same keys, each value the string |
| Cli.Layered | cmd/main.go:196-221 | the layered map has the keys of all layers; a `--num` value beats a `--var` value, which beats the vars file, which beats what was already set (also main.go:154-179) |
| Cli.WithVars | main.go:159-178 | writing one layer key by key, in any order, leaves the variables as the old map overwritten by the layer; name, body and environment are unchanged (also cmd/main.go:201-220) |
| Cli.ApplyVariables | cmd/main.go:196-221 | the error is the `--num` error; without it the variables are `Layered(old, file, --var, --num)`; with it only the file and `--var` layers were written; name, body and environment are unchanged (also main.go:154-179) |
| Cli.ReplicasPair | main.go:44-46 | `replicas=2` is read as the key `replicas` with the value `2` |
| Cli.ReplicasFlag | main.go:43-49 | a single `--var replicas=2` gives the map `{replicas: "2"}` |
| Cli.FlagBeatsVarsFile | main.go:154-169 | a vars file setting `replicas` to 1, followed by `--var replicas=2`, leaves the string `"2"` |
| Funcs.Unix | template/template.go:142-144 | the output is canonical decimal text, and `ParseInt64` reads it back as the same seconds |
| Funcs.TimeUnix | template/template.go:173-182 | succeeds exactly on decimal text (optional `+`/`-`, at least one digit, nothing else) whose value fits in an int64, with that value as the seconds; a failure carries the error for the given text |
| Funcs.TimeUnixOfUnix | template/template.go:142-182 | `time_unix(unix(t))` is `t` |
| Funcs.UnixOfTimeUnix | template/template.go:142-182 | `unix(time_unix(s))` is `s` for canonical decimal `s` in int64 range |
| Decimal.FormatNat | template/template.go:143 | canonical digits that denote the number |
| Decimal.FormatInt | template/template.go:143 | `fmt.Sprintf("%d")`: the text is canonical (no `+`, no leading zero, no `-0`), is decimal text, and denotes exactly the number printed |
| Decimal.ParseInt64 | template/template.go:175 | succeeds exactly on `IsInt64Text`: an optional `+` or `-`, one or more digits and nothing else, with a signed value in [-2^63, 2^63-1]; a success returns that signed value; a failure carries the rejected text |
| Decimal.ParseFormat | template/template.go:142-182 | every int64 prints as canonical text and parses back to itself |
| Decimal.FormatParse | template/template.go:142-182 | canonical text that parses prints back to itself |
| Decimal.FormatTextValue | template/template.go:142-182 | canonical decimal text is the `%d` printing of the value it denotes |
| Decimal.FormatDigitsValue | template/template.go:143 | canonical digits are the printing of the number they denote |
| Decimal.LeadingDigitBound | template/template.go:175 | digits without a leading zero denote at least 10^(length-1) |
| Decimal.ParseAcceptsSignAndZeros | template/template.go:175 | `+007` reads as 7 and `-0` as 0 |
| Decimal.ParseRejectsSyntax | template/template.go:175-178 | the empty text, a lone sign and `1x` are rejected |
| Decimal.ParseRejectsTooLong | template/template.go:175-178 | twenty or more significant digits are out of range, with either sign |
| Funcs.Base64 | template/template.go:212-214 | the output length is a multiple of 4 and every character is in the standard alphabet or is `=` |
| Funcs.Base64Decode | template/template.go:215-221 | an error comes with the empty result; there is no error exactly when standard decoding succeeds, and then the result is the decoded bytes |
| Funcs.Base64RoundTrip | template/template.go:212-221 | `base64decode(base64(v))` is `v` with no error, for every `v` |
| Funcs.Base64DecodeRejects | template/template.go:215-219 | input containing a character outside the alphabet, `=` and newlines gives `""` and an error |
| Base64Codec.Digit | template/template.go:213 | every 6-bit value maps to an alphabet character that decodes back to it |
| Base64Codec.Encode | template/template.go:213 | length is 4 * ceil(n / 3), over the alphabet and `=` |
| Base64Codec.EncodePaddingBitsZero | template/template.go:213 | the bits of the last character before the padding that no input bit fills are zero (the low four after one trailing byte, the low two after two), so the output is the canonical encoding of section 3.5 of RFC 4648 |
| Base64Codec.StripNewlines | template/template.go:216 | no `\r` or `\n` is left, and the result is no longer than the input |
| Base64Codec.StripNewlinesAppend | template/template.go:216 | stripping distributes over concatenation, so it works character by character and keeps the order |
| Base64Codec.StripNewlinesChar | template/template.go:216 | one character: a newline is dropped, anything else is kept |
| Base64Codec.StripNewlinesKeeps | template/template.go:216 | a character other than `\r` and `\n` occurs after stripping exactly when it occurred before |
| Base64Codec.DecodeIgnoresNewline | template/template.go:216 | inserting a `\r` or `\n` anywhere in the input does not change the decoding result |
| Base64Codec.DecodeQuanta | template/template.go:216 | decoding succeeds only on text of a length that is a multiple of 4, over the alphabet and `=`, with `=` only in the last two positions and, when the second-to-last character is `=`, the last one too; the result has at most three bytes per group and loses at most two in the last group |
| Base64Codec.Decode | template/template.go:216 | `base64.StdEncoding.DecodeString`: a success means the text without `\r` and `\n` comes in whole groups of four, and the result has at most three bytes for every four input characters |
| Base64Codec.DecodeEncode | template/template.go:212-221 | decoding undoes encoding for every byte string |
| Base64Codec.DecodeEncodeTailOne | template/template.go:212-221 | the encoding of one byte, padded with `==`, decodes back to that byte |
| Base64Codec.DecodeEncodeTailTwo | template/template.go:212-221 | the encoding of two bytes, padded with `=`, decodes back to those bytes |
| Base64Codec.DecodeQuantaCons | template/template.go:216 | a decodable four-character group followed by decodable text decodes to the two results in order |
| Base64Codec.DecodeRejectsLength | template/template.go:216-219 | input whose length, newlines aside, is not a multiple of 4 is rejected |
| Base64Codec.DecodeRejectsForeign | template/template.go:216-219 | input containing a character that is not in the alphabet, not `=` and not a newline is rejected |
| Funcs.HasPrefix | template/template.go:241-243 | `has_prefix prefix v` takes the needle first: true exactly when `v` starts with `prefix` |
| Funcs.HasSuffix | template/template.go:238-240 | `has_suffix suffix v` takes the needle first: true exactly when `suffix` is no longer than `v` and matches its last characters one by one |
| Funcs.Contains | template/template.go:244-246 | `contains v substr` takes the haystack first: true exactly when `substr` occurs in `v` |
| Funcs.StringTests | template/template.go:238-246 | for `v = a + b`: `has_prefix a v`, `has_suffix b v`, `contains v a` and `contains v b` all hold |
| Funcs.StringTestsArgumentOrder | template/template.go:238-246 | swapping the arguments changes the answer: `has_prefix "temp" "template"` holds but not the reverse, and likewise for `has_suffix` and `contains` |
| Funcs.Port | template/template.go:258-276 | an explicit port is returned unchanged; otherwise `http` gives 80, `https` 443, `ssh` 22, `ftp` 21 and `sftp` 22, chosen by the lower-cased scheme; any other scheme gives `""` |
| Funcs.PortIgnoresCase | template/template.go:263 | schemes equal up to the case of ASCII letters (`EqualFoldAscii`, character by character) give the same port |
| Funcs.PortExamples | template/template.go:258-276 | `HTTPS` gives 443, `Ssh` gives 22, an explicit 8080 wins, and `gopher` gives `""` |
| Funcs.Sha1 | template/template.go:287-291 | 40 lower-case hex digits that read back as the 20-byte sum |
| Funcs.Sha256 | template/template.go:292-296 | 64 lower-case hex digits that read back as the 32-byte sum |
| Funcs.Sha512 | template/template.go:297-301 | 128 lower-case hex digits that read back as the 64-byte sum |
| Hex.Encode | template/template.go:290 | two lower-case hex digits per byte |
| Hex.HexDigit | template/template.go:290 | every nibble has a lower-case digit that reads back as it |
| Hex.DecodeEncode | template/template.go:290 | the hex text reads back as the bytes it was printed from |
| Hex.EncodeInjective | template/template.go:290 | different byte strings print differently |

## Left out

- `Process` and rendering through `text/template` are not modelled. They are an external template language and library. The model stops at the state `Process` reads.
- `File`, the file reading in `NewFromFile`, `loadVarsFile` (YAML decoding), standard input, include files, output files, flag parsing, usage and version banners, `log.Fatal` and `os.Exit` are not modelled: they are I/O and process glue. `Template.Template.FromFile` takes the file contents as a parameter. `Template.Template.New` takes the environment as a parameter. `Cli.ApplyVariables` takes the decoded vars file as a map (an empty map when no `-v` is given).
- `Template.Template.FromFile` does not model the error return of `NewFromFile` when the file cannot be opened or read, because that is I/O.
- Includes and `WithInclude` are not modelled: the `Template` in template/template.go has no includes field and no such method. `Cli.Includes` models only the flag list.
- The `helpers` field of `Template` (template/template.go:49) and its accessor `Helpers()` (template/template.go:126-129) are not modelled: the `Helpers` type is defined outside the modelled files, so `Template.Template` has no such field.
- `UTCNow`, `CreateKey` and `UUIDv4` are not part of this model. They do not appear in template/template.go, and they depend on the clock or on randomness.
- `float64`, `money` and `strconv.ParseFloat` are not modelled, because they are floating point. `Cli.Numbers.Values` takes the float parser as a parameter (`FloatParser`), and a float is kept as its 64 bits.
- `Decimal.NumError` does not model the text of Go's `*strconv.NumError` message (function name, error kind): it records only the rejected text. `Cli.Numbers.Values` uses it for `ParseFloat`'s error too.
- `in`, `time`, `rfc3339`, `short`, `short_date`, `medium`, `kitchen`, `month_day`, `year`, `month`, `day`, `hour`, `minute`, `second` and `millisecond` are not modelled. They rely on the time-zone database and Go's layout engine. `Funcs.Time` keeps only the epoch seconds.
- `url`, `proto`, `host`, `path`, `rawquery` and `query` are not modelled: they are thin wrappers over `net/url` parsing. `Funcs.Port` takes the scheme and the explicit port, which is what `port` reads from the parsed URL.
- The SHA-1, SHA-256 and SHA-512 compression functions are not modelled. `Funcs.Sha1`, `Funcs.Sha256` and `Funcs.Sha512` take the digest as input and model its `%x` printing.
- `upper`, `lower`, `title` and `trim` are not modelled, because they depend on Unicode tables.
- `Funcs.Port` lower-cases ASCII letters only. `strings.ToLower` also folds non-ASCII letters, but `url.Parse` accepts only ASCII letters, digits, `+`, `-` and `.` in a scheme.
- Go strings are byte sequences, and `len` counts bytes. The model's strings are sequences of characters, so text that is not valid UTF-8 (in an environment entry or a flag) cannot be represented. For valid text the character model gives the same results: UTF-8 is self-synchronising, so a byte-level match of one valid string inside another (`=` in the splitting, the needle in `Contains`, `HasPrefix` and `HasSuffix`) always falls on character boundaries and is a character-level match; the case folding changes only the ASCII letters `A`-`Z`, which are single bytes that never occur inside a multi-byte character.
- `Decimal.ParseInt64` does not distinguish a syntax error from a range error. Both are one `NumError` carrying the text.
- `Base64Codec.Decode` does not model the byte offset that Go's `CorruptInputError` carries.
- `Base64Codec.Decode` accepts non-zero padding bits in the final group, as Go's non-strict `StdEncoding` does.
- `Funcs.Base64` takes a byte sequence, and `Funcs.Base64Decode` takes a string of characters and returns a byte sequence; the `Funcs.Sha*` helpers take the digest bytes. Go converts between `string` and `[]byte` at these calls, and that conversion is the identity on bytes; the decoder's input is compared only against the ASCII alphabet, `=`, `\r` and `\n`, so reading it as characters gives the same result on valid text.
- `Template.Template.Body` has no contract of its own. `Template.Template.WithBody` states what it returns.
- `Template.Template.Var` returns an error for a key that is unset with no default. Its Go doc comment says it panics, but the code returns an error, and the model follows the code.
- `Cli.WithVars` chooses the next key arbitrarily. This stands for Go's unspecified map iteration order. The result does not depend on that order, because keys within one layer are unique.
- `Cli.WithVars` tests for an empty layer once for all three layers. Go tests `len(vars) > 0` and `len(numVars) > 0` before the last two loops and `len(varsFile) > 0` (the path) before the first. Ranging over an empty map does nothing, so the results agree.
- Go's `interface{}` values are modelled as `Template.Value`: strings, integers, float bits, and `Other` for any other decoded YAML value, which is told apart only by identity.
- Aliasing through Go's pointer receivers is not modelled. `main` works on a single `*Template`, and each `With*` method returns its receiver, which the model states (`t == this`).
