# mac-to-fgsyntax in Dafny

This project models the core of `mac-to-fgsyntax`, a small web tool. It turns an
uploaded list of MAC addresses into a FortiGate configuration script. The script
has two blocks:

- a `config firewall address` block with one MAC address object per accepted line;
- a `config firewall addrgrp` block that defines one address group and appends every
  one of those objects to it.

The model covers three functions of `cmd/mac-to-fgsyntax/mac-to-fgsyntax.go`:

- `validateMac`: an anchored regular expression that decides whether a whole line is a
  colon-separated MAC address;
- `convertToFGsyntax`: the line generator;
- `doConversion`: the composition of reading, converting and writing, here without the files.

Modules:

- `Text` (`text.dfy`): the two `strings` functions the converter applies to an accepted line,
  `TrimSpace` (with Go's `unicode.IsSpace` set) and `ToLower`.
- `Mac` (`mac.dfy`): `ValidateMac` as a predicate on character positions, plus a second
  definition that reads the regular expression group by group, and a proof that the two agree.
  `Normalize` is the trim-then-lower step. `Parse` and `Format` relate a line to the six octets
  it denotes, so the normalised name can be shown to be the canonical spelling of the address.
- `Convert` (`convert.dfy`): `ConvertToFGsyntax` is the Go loop statement by statement. It is
  proved equal to `Layout`, a block-by-block description of the script. The lemmas state the
  script's shape, order, filtering and group-name behaviour against `Layout`.
- `Output` (`output.dfy`): `DoConversion` and `Serialize`, the text `writeTextFile` stores.
  `Lines` splits that text back into lines. It shows that the group block's header, which
  starts with `\n`, reads back as a blank line.
- `Seqs` (`seqs.dfy`) and `Wrappers` (`wrappers.dfy`): generic facts about sequence
  concatenation, and the `Option` type.

Three behaviours of the code shape the model:

- Only the colon form `xx:xx:xx:xx:xx:xx` is accepted. No line holding a hyphen or a dot is
  accepted (`Mac.OtherSeparatorsRejected`), so hyphen and dotted forms are dropped like any
  other text (`Convert.ColonFormOnly` works one example through).
- Each whole line is validated. Lines are not split into words.
- Validation happens before trimming. A line with surrounding white space is rejected, so the
  `TrimSpace` call never changes an accepted line (`Mac.NormalizeValid`).

## Model

| member | source | states |
|---|---|---|
| Text.TrimSpace | cmd/mac-to-fgsyntax/mac-to-fgsyntax.go:169 | the result has no leading or trailing white space (Go's `unicode.IsSpace`) and is the line itself exactly when the line had none |
| Text.TrimSpaceRemovesOnlySpace | cmd/mac-to-fgsyntax/mac-to-fgsyntax.go:169 | the trimmed line is the slice of the line between a leading and a trailing run of white space: only white space is removed, and only from the two ends |
| Text.Lower | cmd/mac-to-fgsyntax/mac-to-fgsyntax.go:169 | same length, no upper-case ASCII letter left, every other character unchanged and every upper-case letter replaced by its lower-case letter; text already lower-case is unchanged |
| Mac.MatchesGroupsPositions | cmd/mac-to-fgsyntax/mac-to-fgsyntax.go:188 | `([0-9A-Fa-f]{2}[:]){n}([0-9A-Fa-f]{2})` matches a whole string exactly when it has length `3n+2`, a colon at every position `i % 3 == 2` and a hex digit everywhere else |
| Mac.ValidateMacIsPattern | cmd/mac-to-fgsyntax/mac-to-fgsyntax.go:187-194 | the positional `ValidateMac` accepts exactly the strings the anchored pattern with five groups matches |
| Mac.OtherSeparatorsRejected | cmd/mac-to-fgsyntax/mac-to-fgsyntax.go:187-194 | a line holding a `-` or a `.` anywhere is rejected, so the hyphen and dotted spellings of an address never pass |
| Mac.ValidMacIsTight | cmd/mac-to-fgsyntax/mac-to-fgsyntax.go:188 | an accepted line has no surrounding white space, and one more character before or after it, white space included, makes it rejected |
| Mac.Normalize | cmd/mac-to-fgsyntax/mac-to-fgsyntax.go:169 | the name given to a line is lower-case and no longer than the line |
| Mac.NormalizeValid | cmd/mac-to-fgsyntax/mac-to-fgsyntax.go:168-169 | on an accepted line the trim removes nothing: the name is the line lower-cased, and the name is itself accepted |
| Mac.NormalizeIdempotent | cmd/mac-to-fgsyntax/mac-to-fgsyntax.go:169 | trimming and lower-casing a second time changes nothing, for every string |
| Mac.Parse | cmd/mac-to-fgsyntax/mac-to-fgsyntax.go:187-194 | reading six octets off a line succeeds exactly on the lines `validateMac` accepts |
| Mac.Format | cmd/mac-to-fgsyntax/mac-to-fgsyntax.go:169 | the canonical spelling of six octets is an accepted line and is lower-case |
| Mac.ParseFormat | cmd/mac-to-fgsyntax/mac-to-fgsyntax.go:187-194 | parsing the canonical spelling gives back the same six octets |
| Mac.NormalizeIsCanonical | cmd/mac-to-fgsyntax/mac-to-fgsyntax.go:168-169 | the name of an accepted line is the canonical spelling of the address it denotes, so two spellings of one address get the same name |
| Convert.AcceptedMacs | cmd/mac-to-fgsyntax/mac-to-fgsyntax.go:167-169 | the converter keeps at most one name per input line |
| Convert.AddressEntries | cmd/mac-to-fgsyntax/mac-to-fgsyntax.go:170-174 | the address block holds exactly five lines per accepted line |
| Convert.MemberList | cmd/mac-to-fgsyntax/mac-to-fgsyntax.go:175 | when every name is a 17-character MAC address, the member list holds exactly 20 characters per name |
| Convert.ConvertToFGsyntax | cmd/mac-to-fgsyntax/mac-to-fgsyntax.go:163-185 | the loop that appends five lines and one member per accepted line produces exactly the script `Layout` describes block by block |
| Convert.AcceptedMacsAreMacs | cmd/mac-to-fgsyntax/mac-to-fgsyntax.go:167-169 | every name in the output is a lower-case MAC address accepted by `validateMac`, 17 characters long |
| Convert.AcceptedMacsConcat | cmd/mac-to-fgsyntax/mac-to-fgsyntax.go:167-176 | the names of a concatenated input are the names of its parts, in order: no reordering, merging or interaction between lines |
| Convert.AcceptedMacsSingle | cmd/mac-to-fgsyntax/mac-to-fgsyntax.go:168-169 | a single line yields its lower-cased self when accepted and nothing when rejected |
| Convert.RejectedLineIgnored | cmd/mac-to-fgsyntax/mac-to-fgsyntax.go:167-176 | inserting a rejected line anywhere in the input leaves the whole script unchanged: no object, no member |
| Convert.RepeatsKept | cmd/mac-to-fgsyntax/mac-to-fgsyntax.go:167-176 | an accepted line given twice yields its name twice: there is no de-duplication |
| Convert.AddressEntriesAt | cmd/mac-to-fgsyntax/mac-to-fgsyntax.go:170-174 | lines `5i` to `5i+4` of the address entries are the edit, type, start-mac, end-mac and next lines of the `i`-th name |
| Convert.MemberListAt | cmd/mac-to-fgsyntax/mac-to-fgsyntax.go:175 | characters `20i` to `20i+19` of the member list are a space and the `i`-th name in double quotes |
| Convert.LayoutShape | cmd/mac-to-fgsyntax/mac-to-fgsyntax.go:163-185 | for `k` accepted lines the script has `7 + 5k` lines, starts with `config firewall address`, holds the `i`-th name's object at lines `1+5i` to `5+5i` in input order, and ends with `end`, the group header, the group's edit line, the append line, `next` and `end` |
| Convert.AppendLineLayout | cmd/mac-to-fgsyntax/mac-to-fgsyntax.go:165-181 | the append line is the 8-space indent and `append member ` (22 characters), then the `i`-th name quoted at offset `22 + 20i`, and nothing more; with no accepted line it is exactly the bare prefix |
| Convert.GroupNameIsolated | cmd/mac-to-fgsyntax/mac-to-fgsyntax.go:180 | the group name appears verbatim in the group's edit line, and every other line of the script is the same whatever the name |
| Convert.EmptyInput | cmd/mac-to-fgsyntax/mac-to-fgsyntax.go:163-185 | an empty list gives the seven-line script with empty blocks and the bare `append member ` line |
| Convert.ColonFormOnly | cmd/mac-to-fgsyntax/mac-to-fgsyntax.go:187-194 | of a colon-form line with upper-case digits, a word and a hyphen-form line, only the first is kept, lower-cased |
| Output.Serialize | cmd/mac-to-fgsyntax/mac-to-fgsyntax.go:229-234 | the written text is empty exactly when there are no lines, and otherwise ends with a newline |
| Output.LinesSerialize | cmd/mac-to-fgsyntax/mac-to-fgsyntax.go:229-234 | splitting the written text at newlines gives back the lines, when no line holds a newline of its own |
| Output.SerializeConcat | cmd/mac-to-fgsyntax/mac-to-fgsyntax.go:229-234 | the text of a concatenation of lines is the concatenation of their texts |
| Output.DoConversion | cmd/mac-to-fgsyntax/mac-to-fgsyntax.go:157-161 | the text stored for a conversion is the converted script, one newline after each line |
| Output.ScriptNewlines | cmd/mac-to-fgsyntax/mac-to-fgsyntax.go:179 | when the group name has no newline, the only line of the script holding a newline is the group header at index `5k+2` |
| Output.OutputFileLines | cmd/mac-to-fgsyntax/mac-to-fgsyntax.go:179 | read back line by line, the stored text is the script with its group header split into an empty line and `config firewall addrgrp` |

## Left out

- HTTP handlers `index`, `macFGsyntax`, `uploadFile`, `downloadFile` and `main`: network I/O, multipart parsing, redirects and response headers. This includes the check in `uploadFile` that the group name is not empty, so `Layout` accepts any group name, the empty one included.
- The `convertedFiles` map and the identifier built from the wall clock: they exist only to pass results between concurrent requests.
- Template loading in `init`.
- `readTextFile`: opening the file and `bufio.Scanner`'s line splitting, including its removal of a trailing carriage return and its limit on line length. The input is taken as an already-split sequence of lines.
- `writeTextFile`: creating the temporary file and the `log.Fatal` error paths. `Output.DoConversion` returns the text the file receives, not the file's name.
- The Go regular expression engine: `ValidateMac` is the equivalent character predicate, and `Mac.ValidateMacIsPattern` relates it to the pattern's structure.
- Text.Lower: maps only the ASCII letters A to Z, whereas `strings.ToLower` also maps non-ASCII letters. Only lines accepted by `validateMac`, which are pure ASCII, ever reach it.
- Strings are sequences of Unicode scalar values, not Go's UTF-8 byte strings. Invalid UTF-8 in an uploaded file is not modelled.
- Hyphen and dotted MAC forms, and splitting a line into words: this code implements neither.
