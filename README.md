# SVG Scraper: a model of the extraction of embedded SVG images

SVGScraper reads an HTML file and looks at the `src` attribute of every `<img>` element. A
`src` qualifies when it is a base64 data URI of an SVG image, that is, when it starts with
`data:image/svg+xml;base64,`. For each qualifying `src` the program:

- counts it;
- takes the second comma-separated field of the `src`;
- decodes that field with the JDK's basic base64 decoder;
- writes the result as `svg_image_<N>.svg` into an output directory;
- appends a `Saved: <path>` line to its output area.

A run ends in one of three ways:

- Normally, with `All SVG images have been downloaded.`.
- On an `IOException`, with one `Error: <message>` line.
- On an unchecked exception, with nothing more. These exceptions are an
  `ArrayIndexOutOfBoundsException` from the field lookup and an `IllegalArgumentException`
  from the decoder. The `catch` clause does not cover them.

If no output directory is given, the program uses the `images` folder beside the HTML file.
That is always the case on the command line.

The project follows the structure of the program:

| file | module | contents |
|---|---|---|
| `base64.dfy` | `Base64` | The decoder as the JDK runs it, digit by digit, including its leniencies. An RFC 4648 section 4 encoder is its partner, with the round trip `Decode(Encode(b)) == Some(b)`. |
| `data_uri.dfy` | `DataUri` | The prefix test and Java's `String.split(",")`, which drops trailing empty fields. `PayloadOf` is its field 1. |
| `paths.dfy` | `Paths` | The decimal rendering of the counter and the file names. The `java.io.File` operations the default directory is built from, on a Unix host: normalisation, `getParent`, the child constructor, `getAbsolutePath`. |
| `disk.dfy` | `Disks` | The file system as a value (`Disk`) and as a class changed in place (`FileSystem`). Some paths are faulty and raise an `IOException` with a given message. |
| `extraction.dfy` | `Extraction` | The run as values. `LoopOver` folds the loop body `Step` over the `src` values; `IsTrace` lists the states it passes through. `Attempts` independently describes the same loop image by image, cut at the first failure by `LeadingSaved`. `Run` covers the whole of `processSVGFile`. The lemmas connect these. |
| `scraper.dfy` | `Scraper` | The class `TextArea`, the output area as a sequence of lines. The class `SvgScraper`, with the two text fields and the output area as fields. `processSVGFile` is a method with the loop; it is proved to do exactly what `Run` describes. The module also holds `startScraping` and `main`. |

`Run` is the value-level specification, and everything about message order, file contents
and failure cases is proved about it. The imperative methods are proved equal to it.

## Model

| member | source | states |
|---|---|---|
| Base64.Value | app/src/main/java/svgscrape/gui/SVGScraper.java:157 | The decoder's reverse table: a character has a value exactly when it is a digit of the alphabet, and that value's digit is the character. |
| Base64.ValueOfDigit | app/src/main/java/svgscrape/gui/SVGScraper.java:157 | Every digit is read back as the value it encodes. |
| Base64.ValueRecognisesAlphabet | app/src/main/java/svgscrape/gui/SVGScraper.java:157 | The characters with a value are exactly the 64 characters of the alphabet. |
| Base64.AlphabetSamples | app/src/main/java/svgscrape/gui/SVGScraper.java:157 | The alphabet runs A–Z, a–z, 0–9, `+`, `/` at the positions of RFC 4648 Table 1. |
| Base64.Bits | app/src/main/java/svgscrape/gui/SVGScraper.java:157 | The digits of one group fit in 24 bits. |
| Base64.Group | app/src/main/java/svgscrape/gui/SVGScraper.java:157 | A full group of four digits gives three octets whose big-endian value is the group's 24 bits. |
| Base64.Flush | app/src/main/java/svgscrape/gui/SVGScraper.java:157 | At the end of input or at padding, a single dangling digit fails. Two or three pending digits add one or two octets. Earlier output is kept. |
| Base64.Finish | app/src/main/java/svgscrape/gui/SVGScraper.java:157 | After the padding the input must end ("incorrect ending byte" otherwise); the pending digits are then flushed. Its properties are stated by `DecodeOneOctet`, `DecodeTwoOctets` and `LenientDecoding`. |
| Base64.DecodeFrom | app/src/main/java/svgscrape/gui/SVGScraper.java:157 | The decoder's loop, one character at a time, collecting digits in groups of four. Its properties are stated by `DecodeFullGroup`, `DecodeEncodeFrom` and `ForeignCharFailsFrom`. |
| Base64.Decode | app/src/main/java/svgscrape/gui/SVGScraper.java:157 | `Base64.getDecoder().decode`: `None` stands for the `IllegalArgumentException`. It inverts `Encode` (`DecodeEncode`), rejects foreign characters (`ForeignCharFails`), accepts the JDK's lenient forms (`LenientDecoding`), and decodes the worked example (`DecodeSvgExample`). |
| Base64.Encode | app/src/main/java/svgscrape/gui/SVGScraper.java:157 | The RFC 4648 padded encoding has 4·⌈n/3⌉ characters. |
| Base64.EncodeAlphabet | app/src/main/java/svgscrape/gui/SVGScraper.java:157 | The encoder writes only alphabet digits and the padding character. |
| Base64.GroupOfDigits | app/src/main/java/svgscrape/gui/SVGScraper.java:157 | The four digits written for three octets decode to those octets. |
| Base64.DecodeFullGroup | app/src/main/java/svgscrape/gui/SVGScraper.java:157 | Decoding an encoded full group emits its three octets and resumes at a group boundary. |
| Base64.DecodeOneOctet | app/src/main/java/svgscrape/gui/SVGScraper.java:157 | The final group `xy==` decodes to its one octet. |
| Base64.DecodeTwoOctets | app/src/main/java/svgscrape/gui/SVGScraper.java:157 | The final group `xyz=` decodes to its two octets. |
| Base64.DecodeEncodeFrom | app/src/main/java/svgscrape/gui/SVGScraper.java:157 | From a group boundary, decoding an encoding appends exactly the encoded octets. |
| Base64.DecodeEncode | app/src/main/java/svgscrape/gui/SVGScraper.java:157 | Round trip: `Decode(Encode(b)) == Some(b)` for every octet string. |
| Base64.ForeignCharFailsFrom | app/src/main/java/svgscrape/gui/SVGScraper.java:157 | A character that is neither a digit nor padding, anywhere in the unread input, makes the decoder fail, whatever its state. |
| Base64.ForeignCharFails | app/src/main/java/svgscrape/gui/SVGScraper.java:157 | A payload containing a character outside the alphabet and the padding character is rejected (`IllegalArgumentException`). |
| Base64.LenientDecoding | app/src/main/java/svgscrape/gui/SVGScraper.java:157 | The decoder accepts missing padding (`QQ`) and non-zero unused bits (`QR==`). So decode-then-encode is not the identity. |
| Base64.DecodeSvgExample | app/src/main/java/svgscrape/gui/SVGScraper.java:157 | `PHN2Zy8+` decodes to the octets of `<svg/>`. |
| DataUri.FirstComma | app/src/main/java/svgscrape/gui/SVGScraper.java:156 | Finds the first comma: there is a comma at that position and none before it. |
| DataUri.Qualifies | app/src/main/java/svgscrape/gui/SVGScraper.java:154 | `src.startsWith("data:image/svg+xml;base64,")`. `Extraction.QualifyingMembers` and `Extraction.UnqualifiedIgnored` state what the test selects and what it leaves out. |
| DataUri.FirstFieldEndsAtComma | app/src/main/java/svgscrape/gui/SVGScraper.java:156 | The first field is a comma-free prefix of the string, ended by a comma or by the end of the string. |
| DataUri.Fields | app/src/main/java/svgscrape/gui/SVGScraper.java:156 | Splitting at every comma gives at least one field, and the first is `FirstField`. |
| DataUri.FieldsHaveNoComma | app/src/main/java/svgscrape/gui/SVGScraper.java:156 | No field holds a comma. |
| DataUri.JoinFields | app/src/main/java/svgscrape/gui/SVGScraper.java:156 | Splitting loses nothing: joining the fields with commas gives the string back. |
| DataUri.TrailingEmptyDropped | app/src/main/java/svgscrape/gui/SVGScraper.java:156 | `split` keeps a prefix of the fields that does not end in an empty field. Every field it drops is empty. |
| DataUri.FieldsAllEmpty | app/src/main/java/svgscrape/gui/SVGScraper.java:156 | Every field is empty exactly when the string is all commas. |
| DataUri.CommasGiveEmptyFields | app/src/main/java/svgscrape/gui/SVGScraper.java:156 | A string of commas only has only empty fields. |
| DataUri.EmptyFieldsGiveCommas | app/src/main/java/svgscrape/gui/SVGScraper.java:156 | A string whose fields are all empty is commas only. |
| DataUri.JavaSplit | app/src/main/java/svgscrape/gui/SVGScraper.java:156 | `String.split(",")`: the fields with the trailing empty ones dropped. `JoinFields`, `FieldsHaveNoComma`, `TrailingEmptyDropped` and `FieldsAllEmpty` state its properties. |
| DataUri.PayloadOf | app/src/main/java/svgscrape/gui/SVGScraper.java:156 | `split(",")[1]`, with `None` for the `ArrayIndexOutOfBoundsException`. `PayloadOfQualifying`, `PayloadWithoutComma`, `BarePrefixThrows` and `SecondCommaEndsPayload` state which text it is. |
| DataUri.PayloadOfQualifying | app/src/main/java/svgscrape/gui/SVGScraper.java:154-156 | For a qualifying `src`, `split(",")[1]` throws exactly when the text after the prefix is commas only. Otherwise it is the text after the prefix up to the next comma, i.e. between the first and second comma. |
| DataUri.PayloadWithoutComma | app/src/main/java/svgscrape/gui/SVGScraper.java:156 | When no comma follows the prefix and something does, the payload is the `src` with the prefix removed. |
| DataUri.BarePrefixThrows | app/src/main/java/svgscrape/gui/SVGScraper.java:154-156 | The bare prefix qualifies but has no field 1, so the lookup throws. |
| DataUri.FirstFieldBeforeComma | app/src/main/java/svgscrape/gui/SVGScraper.java:156 | The first field of `p + "," + q` is `p` when `p` has no comma. |
| DataUri.SecondCommaEndsPayload | app/src/main/java/svgscrape/gui/SVGScraper.java:156 | For a non-empty, comma-free `p`, field 1 of `prefix + p + "," + q` is `p`, whatever `q` holds. |
| Paths.DigitChar | app/src/main/java/svgscrape/gui/SVGScraper.java:160 | A digit value becomes a decimal digit character. |
| Paths.DecimalString | app/src/main/java/svgscrape/gui/SVGScraper.java:160 | The counter is rendered in decimal: digits only, no leading zero, at least two digits from 10 on. |
| Paths.DecimalRoundTrip | app/src/main/java/svgscrape/gui/SVGScraper.java:160 | Reading the rendering back gives the number. |
| Paths.DecimalInjective | app/src/main/java/svgscrape/gui/SVGScraper.java:160 | Distinct ordinals are rendered differently. |
| Paths.FilePathInjective | app/src/main/java/svgscrape/gui/SVGScraper.java:160 | Within one output directory, two ordinals give the same path exactly when they are equal. |
| Paths.FileName | app/src/main/java/svgscrape/gui/SVGScraper.java:160 | `"svg_image_" + svgCounter + ".svg"`. `FileNameExamples` gives its first values; `FilePathInjective` proves distinct ordinals give distinct names. |
| Paths.FilePath | app/src/main/java/svgscrape/gui/SVGScraper.java:160 | `outputDir + File.separator + FileName`. `FilePathInjective` proves that two ordinals share a path only when they are equal. |
| Paths.FileNameExamples | app/src/main/java/svgscrape/gui/SVGScraper.java:160 | Ordinals 1 and 12 give `svg_image_1.svg` and `svg_image_12.svg`. |
| Paths.CollapseSlashes | app/src/main/java/svgscrape/gui/SVGScraper.java:109 | The result has no doubled separator, keeps the first character and is no longer than the input. |
| Paths.StripCollapseSlashes | app/src/main/java/svgscrape/gui/SVGScraper.java:109 | Collapsing removes separators only: the other characters stay, in order. |
| Paths.Normalize | app/src/main/java/svgscrape/gui/SVGScraper.java:109 | `new File(path)` keeps a pathname that is empty only if the input was, starts like it, has no doubled separator, and has no trailing separator unless it is `/`. |
| Paths.StripNormalize | app/src/main/java/svgscrape/gui/SVGScraper.java:109 | Normalising removes separators only: every other character is kept, in order. |
| Paths.NormalizeIdempotent | app/src/main/java/svgscrape/gui/SVGScraper.java:109 | A normalised pathname is normalised again to itself. |
| Paths.StripConcat | app/src/main/java/svgscrape/gui/SVGScraper.java:109 | Removing the separators of a concatenation removes those of each part. |
| Paths.CollapseDoubled | app/src/main/java/svgscrape/gui/SVGScraper.java:109 | A doubled separator anywhere in a pathname collapses to a single one. With `NormalUnchanged` this fixes `CollapseSlashes` on every input. |
| Paths.NormalizeDoubled | app/src/main/java/svgscrape/gui/SVGScraper.java:109 | `new File` keeps one separator where the pathname has two. |
| Paths.NormalizeDoubledEntry | app/src/main/java/svgscrape/gui/SVGScraper.java:109 | A name in a normalised directory written with a doubled separator (`/tmp//doc.html`) names the same path as with one (`/tmp/doc.html`). |
| Paths.LastSeparator | app/src/main/java/svgscrape/gui/SVGScraper.java:112 | Finds the last separator, or reports that there is none. |
| Paths.Parent | app/src/main/java/svgscrape/gui/SVGScraper.java:112 | `File.getParent()`. `ParentOfResolve` proves that the parent of an entry of a normalised directory is that directory, root included; `DefaultOutputDirOfBareName` covers the `null` parent of a bare name. |
| Paths.Resolve | app/src/main/java/svgscrape/gui/SVGScraper.java:112 | `new File(parent, "images")` joins with one separator, with none after the root, and gives the parent itself for an empty child. `ResolveNamesEntry` proves the result ends in `/` and the child; `ResolveNormal` proves it stays normalised. |
| Paths.Absolute | app/src/main/java/svgscrape/gui/SVGScraper.java:112 | `getAbsolutePath()`. `AbsoluteKeepsEntry` proves it keeps the last entry, and is absolute when the working directory is; `AbsoluteEntry` gives its value for a relative path. |
| Paths.DefaultOutputDir | app/src/main/java/svgscrape/gui/SVGScraper.java:110-112 | The default directory ends in `/images`. It is absolute whenever the working directory is. |
| Paths.ResolveNamesEntry | app/src/main/java/svgscrape/gui/SVGScraper.java:112 | Resolving a child gives a path that ends in a separator and the child, absolute when the parent is. |
| Paths.AbsoluteKeepsEntry | app/src/main/java/svgscrape/gui/SVGScraper.java:112 | Making a path absolute keeps its last entry, and gives an absolute path when the working directory is absolute. |
| Paths.AbsoluteEntry | app/src/main/java/svgscrape/gui/SVGScraper.java:112 | A relative `d/name` is made absolute as `cwd/d/name`, or `/d/name` when the working directory is the root. |
| Paths.ResolveNormal | app/src/main/java/svgscrape/gui/SVGScraper.java:112 | A separator-free name put into a non-empty normalised directory gives a normalised path. |
| Paths.ParentOfResolve | app/src/main/java/svgscrape/gui/SVGScraper.java:112 | The parent of `d/name`, for a non-empty normalised directory `d` and a non-empty, separator-free name, is `d` (also for the root). |
| Paths.DefaultOutputDirOfResolve | app/src/main/java/svgscrape/gui/SVGScraper.java:110-112 | For an HTML file `d/name` in a non-empty normalised directory `d`, with a non-empty, separator-free name, the default directory is `d/images` made absolute. |
| Paths.DefaultOutputDirIsSibling | app/src/main/java/svgscrape/gui/SVGScraper.java:110-112 | For an HTML file `d/name` in an absolute normalised directory `d`, the default directory is `d/images` (`/images` in the root). |
| Paths.DefaultOutputDirRelative | app/src/main/java/svgscrape/gui/SVGScraper.java:110-112 | For an HTML file `d/name` in a non-empty, relative, normalised directory `d`, with a non-empty, separator-free name, the default directory is `cwd/d/images` (`/d/images` when the working directory is the root). |
| Paths.DefaultOutputDirNormalizes | app/src/main/java/svgscrape/gui/SVGScraper.java:109-112 | The default directory depends only on the normalised HTML path; with `NormalizeDoubledEntry`, `/tmp//doc.html` and `/tmp/doc.html` give the same one. |
| Paths.NormalUnchanged | app/src/main/java/svgscrape/gui/SVGScraper.java:109 | A pathname without doubled separators is kept as it is. |
| Paths.LastSeparatorAt | app/src/main/java/svgscrape/gui/SVGScraper.java:112 | The separator after which no separator follows is the last separator. |
| Paths.DefaultOutputDirOfBareName | app/src/main/java/svgscrape/gui/SVGScraper.java:186 | A bare file name has no parent, so its default directory is `images` in the working directory. |
| Disks.Mkdirs | app/src/main/java/svgscrape/gui/SVGScraper.java:145 | `mkdirs` adds the directory unless the path is faulty or names an existing regular file. Files and faults stay; the ignored result hides a failure. |
| Disks.Read | app/src/main/java/svgscrape/gui/SVGScraper.java:147 | Reading succeeds exactly for an existing, non-faulty, non-directory path, and gives its contents. |
| Disks.WriteError | app/src/main/java/svgscrape/gui/SVGScraper.java:161 | Why `new FileWriter` fails, if it does: the path's own fault, "(Is a directory)", "(Not a directory)" when the output directory is a regular file, and "(No such file or directory)" when it is missing. `Write`, `WriteAfterMkdirs`, `MkdirsOverFile` and `WriteErrorIgnoresFiles` state its properties. |
| Disks.Write | app/src/main/java/svgscrape/gui/SVGScraper.java:161-163 | Writing fails exactly when opening fails, with that message. Otherwise only the one file changes, and it holds the data. |
| Disks.MkdirsIdempotent | app/src/main/java/svgscrape/gui/SVGScraper.java:145 | Creating the directory twice is the same as creating it once. |
| Disks.WriteAfterMkdirs | app/src/main/java/svgscrape/gui/SVGScraper.java:145-161 | After `mkdirs` on a path that is not faulty, opening a file in the directory fails exactly for a faulty path, a directory, the directory itself, or when the directory is a regular file. |
| Disks.MkdirsOverFile | app/src/main/java/svgscrape/gui/SVGScraper.java:145-161 | When the output directory names an existing regular file, `mkdirs` changes nothing and opening any non-faulty, non-directory path in it fails with "(Not a directory)". |
| Disks.WriteErrorIgnoresFiles | app/src/main/java/svgscrape/gui/SVGScraper.java:161 | Whether opening fails does not depend on what files exist, except whether the directory itself is a regular file. |
| Disks.FileSystem.MakeDirs | app/src/main/java/svgscrape/gui/SVGScraper.java:145 | The in-place `mkdirs` leaves the state `Mkdirs` describes. |
| Disks.FileSystem.ReadAllBytes | app/src/main/java/svgscrape/gui/SVGScraper.java:147 | Returns what `Read` describes and changes nothing. |
| Disks.FileSystem.WriteFile | app/src/main/java/svgscrape/gui/SVGScraper.java:161-163 | Reports the `IOException` message `WriteError` gives and then changes nothing. Otherwise it leaves the state `Write` describes. |
| Extraction.StoppedStays | app/src/main/java/svgscrape/gui/SVGScraper.java:152-170 | Once an exception has left the loop, no later `src` changes anything. |
| Extraction.LoopTrace | app/src/main/java/svgscrape/gui/SVGScraper.java:151-170 | Every loop has its trace of states, one per start of an iteration and a final one: each is one `Step` from the one before, the final one is `LoopOver`'s result, and once a state is stopped it is the final one. |
| Extraction.TryImage | app/src/main/java/svgscrape/gui/SVGScraper.java:156-163 | How one qualifying `src` fares under ordinal k, in the body's order: the missing field 1, malformed base64, a failed open, or a saved image. `SavedAttempt`, `BarePrefixFails`, `ForeignPayloadFails`, `TryImageIgnoresFiles` and `AttemptsIntoFile` state its properties. |
| Extraction.BarePrefixFails | app/src/main/java/svgscrape/gui/SVGScraper.java:154-156 | A `src` that is the bare prefix fails with `ArrayIndexOutOfBoundsException`, whatever its ordinal and the file system. |
| Extraction.Record | app/src/main/java/svgscrape/gui/SVGScraper.java:155-165 | The counter goes up; a saved image is written and then announced, a failure stops the loop. `ExtendRunning` proves it extends the image-by-image description by one attempt. |
| Extraction.Step | app/src/main/java/svgscrape/gui/SVGScraper.java:152-166 | One loop body. `StepRunning` and `DescribesStep` prove that on a running loop a qualifying `src` fares as on the starting file system, and that any other `src` changes nothing; `StoppedStays` proves a stopped loop stays put. |
| Extraction.LoopOver | app/src/main/java/svgscrape/gui/SVGScraper.java:151-167 | The loop as a fold of `Step`. `LoopCharacterization` describes it image by image; `LoopTrace`, `StoppedStays` and `UnqualifiedIgnored` state its other properties. |
| Extraction.StepRunning | app/src/main/java/svgscrape/gui/SVGScraper.java:152-166 | On a running loop, a qualifying `src` is handled under the next ordinal exactly as it would be on the starting file system. |
| Extraction.DescribesStep | app/src/main/java/svgscrape/gui/SVGScraper.java:152-166 | One more `src` extends the description of the loop by its attempt when it qualifies, and changes nothing when it does not. |
| Extraction.ExtendRunning | app/src/main/java/svgscrape/gui/SVGScraper.java:155-165 | A running loop records one more attempt: a saved image is written and announced under the next ordinal, a failed one stops the loop. |
| Extraction.ExtendStopped | app/src/main/java/svgscrape/gui/SVGScraper.java:152-170 | A stopped loop ignores one more attempt. |
| Extraction.Qualifying | app/src/main/java/svgscrape/gui/SVGScraper.java:154 | Every kept value qualifies, and no more values are kept than were given. |
| Extraction.QualifyingMembers | app/src/main/java/svgscrape/gui/SVGScraper.java:154 | The kept values are exactly the `src` values that qualify. |
| Extraction.QualifyingConcat | app/src/main/java/svgscrape/gui/SVGScraper.java:152-154 | Filtering a concatenation filters each part in turn, so the qualifying values keep document order and multiplicity. |
| Extraction.QualifyingSingleton | app/src/main/java/svgscrape/gui/SVGScraper.java:154 | A single `src` is kept exactly when it qualifies. |
| Extraction.TryImageIgnoresFiles | app/src/main/java/svgscrape/gui/SVGScraper.java:156-163 | How an image fares does not depend on which files exist, except whether the output directory is a regular file. |
| Extraction.Attempts | app/src/main/java/svgscrape/gui/SVGScraper.java:151-155 | The k-th qualifying `src` is handled under ordinal k. |
| Extraction.AttemptsAppend | app/src/main/java/svgscrape/gui/SVGScraper.java:151-155 | One more qualifying value adds one attempt at the end, under the next ordinal. |
| Extraction.LeadingSaved | app/src/main/java/svgscrape/gui/SVGScraper.java:152-170 | Counts the images saved before the first failure: all those before it were saved, and the one at it failed. |
| Extraction.ApplyWrites | app/src/main/java/svgscrape/gui/SVGScraper.java:160-163 | After the first m writes, the paths of ordinals 1..m exist. |
| Extraction.ApplyWritesKeys | app/src/main/java/svgscrape/gui/SVGScraper.java:160-163 | The files afterwards are the old ones plus the paths of ordinals 1..m, no other. |
| Extraction.ApplyWritesWritten | app/src/main/java/svgscrape/gui/SVGScraper.java:160-163 | The path of ordinal k holds image k. |
| Extraction.ApplyWritesUntouched | app/src/main/java/svgscrape/gui/SVGScraper.java:160-163 | Every other file keeps its contents. |
| Extraction.SavedLines | app/src/main/java/svgscrape/gui/SVGScraper.java:165 | The saved lines for ordinals 1..m, in ordinal order. |
| Extraction.LoopCharacterization | app/src/main/java/svgscrape/gui/SVGScraper.java:151-167 | The loop is described image by image. The first m images are written and announced in order. It then stopped for image m+1's reason, or it runs on with the counter at the number of qualifying values. |
| Extraction.UnqualifiedIgnored | app/src/main/java/svgscrape/gui/SVGScraper.java:153-154 | Non-qualifying `src` values change nothing: no file, no message, no count. |
| Extraction.QualifyingIdempotent | app/src/main/java/svgscrape/gui/SVGScraper.java:154 | Filtering already-qualifying values keeps them all. |
| Extraction.Conclude | app/src/main/java/svgscrape/gui/SVGScraper.java:167-172 | The end of the `try` block. `RunCharacterization`, `RunMessageProtocol` and `CompleteRun` state what it appends: the done line, one error line, or nothing with an escaping exception. |
| Extraction.Run | app/src/main/java/svgscrape/gui/SVGScraper.java:143-173 | The whole of `processSVGFile`. `RunCharacterization`, `RunReadFailure`, `RunFilesAreOrdinalPrefix`, `RunFileContents`, `CompleteRun`, `RunIdempotent` and `RunIntoFile` state its properties. |
| Extraction.RunAttempts | app/src/main/java/svgscrape/gui/SVGScraper.java:147-155 | There is one attempt per qualifying `src` of the page read after `mkdirs`. |
| Extraction.LineKinds | app/src/main/java/svgscrape/gui/SVGScraper.java:165-171 | Saved lines, error lines and the done line cannot be confused. |
| Extraction.RunReadFailure | app/src/main/java/svgscrape/gui/SVGScraper.java:144-171 | An unreadable HTML file: the directory was still created, no file written, one error line, no exception. |
| Extraction.RunCharacterization | app/src/main/java/svgscrape/gui/SVGScraper.java:143-173 | The run writes exactly files 1..m and announces them in order. It ends with the done line if all were saved, with one error line after a failed write, and with no line after an unchecked exception, which escapes. |
| Extraction.RunMessageProtocol | app/src/main/java/svgscrape/gui/SVGScraper.java:161-171 | Every run's output is saved lines for ordinals 1, 2, … in order. Exactly one done or error line follows, unless an unchecked exception escaped, in which case nothing follows. |
| Extraction.SavedAttempt | app/src/main/java/svgscrape/gui/SVGScraper.java:156-163 | A saved image had a payload that decoded, and its data is that decoding. |
| Extraction.RunFilesAreOrdinalPrefix | app/src/main/java/svgscrape/gui/SVGScraper.java:151-171 | The written files are the paths of ordinals 1..m, with m at most the number of qualifying values. No other file changes. |
| Extraction.RunFileContents | app/src/main/java/svgscrape/gui/SVGScraper.java:156-163 | File k holds the decoding of field 1 of the k-th qualifying `src`. |
| Extraction.WrittenImage | app/src/main/java/svgscrape/gui/SVGScraper.java:156-163 | Image k of the first m saved ones came from a payload that decoded, and its file holds that decoding, recoded. |
| Extraction.CompleteRun | app/src/main/java/svgscrape/gui/SVGScraper.java:151-169 | The run ends with the done line exactly when every qualifying image was saved. Then the output is the saved lines for 1..K plus the done line, and the new files are exactly 1..K. |
| Extraction.ForeignPayloadFails | app/src/main/java/svgscrape/gui/SVGScraper.java:157 | An image whose payload holds a foreign character fails with `IllegalArgumentException`. |
| Extraction.ForeignCharacterStopsRun | app/src/main/java/svgscrape/gui/SVGScraper.java:152-171 | An image j with a foreign character in its payload is never written, and nothing after it is. No done line appears. If all earlier images were saved, the exception escapes right there with only their saved lines. |
| Extraction.AttemptsIgnoreFiles | app/src/main/java/svgscrape/gui/SVGScraper.java:156-163 | The attempts do not depend on which files exist, except whether the output directory is a regular file. |
| Extraction.ApplyWritesIdempotent | app/src/main/java/svgscrape/gui/SVGScraper.java:160-163 | Writing the same images again changes nothing. |
| Extraction.RunIdempotent | app/src/main/java/svgscrape/gui/SVGScraper.java:143-173 | After a completed run that did not overwrite the HTML file, running again on the result gives exactly the same result. |
| Extraction.NoImagesRun | app/src/main/java/svgscrape/gui/SVGScraper.java:145-169 | A page without qualifying images only creates the directory and prints the done line. |
| Extraction.RunIntoFile | app/src/main/java/svgscrape/gui/SVGScraper.java:145-171 | An output directory that is an existing regular file: nothing is written and nothing saved. A page without images ends with the done line. Otherwise the run does not complete and prints at most one line; when the first image decodes and its path is neither faulty nor a directory, that line is the "(Not a directory)" error. |
| Extraction.AttemptsIntoFile | app/src/main/java/svgscrape/gui/SVGScraper.java:156-163 | No image can be saved into a directory that is a regular file; the first one that reaches the write fails with "(Not a directory)". |
| Extraction.EncodedImageSaved | app/src/main/java/svgscrape/gui/SVGScraper.java:154-163 | The prefix plus the encoding of non-empty octets qualifies and, when its file can be opened, is saved as those octets converted by `recode`. |
| Extraction.EncodedPageRoundTrip | app/src/main/java/svgscrape/gui/SVGScraper.java:143-173 | On a readable page whose qualifying images are the prefix plus the encodings of non-empty octet strings, with a directory that is neither faulty nor a regular file and no image path faulty or a directory, the run completes and file k holds image k as `recode` converts it. |
| Extraction.EncodedImagesSaved | app/src/main/java/svgscrape/gui/SVGScraper.java:145-163 | On such a page, with the directory created, every attempt is saved, with image k as `recode` converts it. |
| Scraper.TextArea.constructor | app/src/main/java/svgscrape/gui/SVGScraper.java:55 | A new output area is empty. |
| Scraper.TextArea.Append | app/src/main/java/svgscrape/gui/SVGScraper.java:165 | `append` adds exactly one line at the end. |
| Scraper.TextArea.Clear | app/src/main/java/svgscrape/gui/SVGScraper.java:120 | `setText("")` leaves the area empty. |
| Scraper.HostPath | app/src/main/java/svgscrape/gui/SVGScraper.java:147 | `htmlFile.toPath()` of a `new File(path)`: the normalised pathname made absolute. `Paths.StripNormalize` and `Paths.NormalizeIdempotent` state what normalisation keeps; `Scraper.CommandLine` uses it for the file it reads. |
| Scraper.IsRegularFile | app/src/main/java/svgscrape/gui/SVGScraper.java:182 | `exists() && isFile()`. `Scraper.CommandLine` proves that a path failing it is rejected with nothing changed. |
| Scraper.SvgScraper.constructor | app/src/main/java/svgscrape/gui/SVGScraper.java:24-55 | A new window has empty text fields and a new, empty output area. |
| Scraper.SvgScraper.ProcessSvgFile | app/src/main/java/svgscrape/gui/SVGScraper.java:143-173 | The file system and the output area end exactly as `Run` describes. The unchecked exception, if any, is returned. Only the file system and the output area change, so the text fields are untouched. |
| Scraper.SvgScraper.ExtractImages | app/src/main/java/svgscrape/gui/SVGScraper.java:151-167 | The loop leaves the files, the appended saved lines and the reason it stopped exactly as `LoopOver` describes. |
| Scraper.SvgScraper.ScrapeAt | app/src/main/java/svgscrape/gui/SVGScraper.java:152-166 | Iteration `i` of the loop moves it from the trace's state `tr[i]` to `tr[i + 1]`, on the files and on the output area. |
| Scraper.SvgScraper.ScrapeSource | app/src/main/java/svgscrape/gui/SVGScraper.java:153-165 | One loop body in place matches `Step`. The only output line it can add is the one saved line. |
| Scraper.SvgScraper.StartScraping | app/src/main/java/svgscrape/gui/SVGScraper.java:100-141 | Without an HTML file there is only a prompt, and nothing changes. Otherwise an empty output-directory field is filled with `DefaultOutputDir`; the output area is cleared and then holds exactly `Run`'s messages; the files are as `Run` leaves them. |
| Scraper.CommandLine | app/src/main/java/svgscrape/gui/SVGScraper.java:175-208 | No argument launches the GUI. An argument that is not an existing regular file is rejected with nothing changed. Otherwise the file is processed into `DefaultOutputDir` with `Run`'s messages, files and exception. |

## Left out

- Swing: the window layout, drag and drop, the file chooser, enabling the button, and the
  prompt dialog's text. The `SwingWorker` and `SwingUtilities.invokeLater` thread hops are
  also left out: every message is appended directly, in program order.
- The output area is a sequence of lines; the `"\n"` after each line is not modelled.
- jsoup (`Jsoup.parse` and `select("img[src]")`) is a foreign library. It is the parameter
  `parse`, from the bytes of the file to its `src` values in document order.
- The platform default charset, used by `new String(bytes)` and `FileWriter`. The
  conversion from decoded bytes to the written bytes is the parameter `recode`. The
  conversion in `parse` includes it for the HTML file.
- The file system is abstract: pathnames are plain strings, and two spellings of one file
  are not identified. Only the HTML file's name goes through `new File` normalisation and
  resolution against the working directory (`HostPath`). The output directory and image
  paths are used as written.
- `mkdirs` creates only the directory itself, not the missing parents, and its boolean
  result is ignored as the program ignores it. A write either fails before writing or
  writes everything; a partial write that fails half-way is not modelled.
- Disks.Read: the JDK's exact exception messages are not reproduced. A missing file
  reports its path, and a directory reports "Is a directory".
- The default output directory follows `java.io.File` on a Unix host (separator `/`).
  Windows drive letters and the `\` separator are not modelled.
- Scraper.CommandLine: the console output is not modelled, nor are the completion dialog,
  `System.exit` and `printStackTrace`. An unchecked exception that `main`'s
  `catch (Exception e)` reports is returned in `Processed(…, thrown)`.
  `exists() && isFile()` is folded into one test (`IsRegularFile`).
- Scraper.SvgScraper.StartScraping: an unchecked exception is kept inside the background
  worker, so it is not returned.
- The `svgCounter` is an unbounded `nat`. `Elements` holds at most `Integer.MAX_VALUE`
  elements, so the `int` counter cannot wrap.
- `Elements` is taken as given. That it holds only elements with a `src` attribute comes
  from the selector, which is part of `parse`.

## Behaviour worth knowing

- **The payload ends at the second comma.** Field 1 of `split(",")` is the text between the
  first and second comma; trailing empty fields are dropped first, so a `src` whose tail is
  commas only has no field 1 (`DataUri.PayloadOfQualifying`, `DataUri.SecondCommaEndsPayload`).
- **Malformed base64 ends the run without a message.** The decoder throws an
  `IllegalArgumentException`, which `catch (IOException e)` does not handle, so neither an
  `Error:` line nor the done line is appended (`Base64.ForeignCharFails`,
  `Extraction.ForeignPayloadFails`, `Extraction.ForeignCharacterStopsRun`).
- **The decoder is lenient.** It accepts missing padding (`QQ`) and non-zero unused bits
  (`QR==`, which decodes like `QQ==`), so re-encoding a decoded payload gives it back only for
  canonical input (`Base64.LenientDecoding`, `Base64.DecodeEncode`).
- **An output directory that is a regular file.** `mkdirs` fails silently, and the first
  image that reaches the write ends the run with a "(Not a directory)" error line
  (`Disks.MkdirsOverFile`, `Extraction.RunIntoFile`).
