# Image processing middleware and Dancing Goat helpers, modelled in Dafny

This project models the core of an ASP.NET Core image-processing middleware and four small
algorithms of its "Dancing Goat" sample site. Each is stated in Dafny and proved correct
against its own specification.

- **`ImageProcessingMiddleware`** (`image_processing_middleware.dfy`, with `int32.dfy` and `text.dfy`).
  The middleware buffers the origin response. It then either passes the bytes through unchanged,
  answers 304 Not Modified when `If-None-Match` equals the computed ETag, or re-encodes the image
  at the requested size. A request is a value: path, query, `If-None-Match` values, buffered bytes
  and status code. The outcome is `PassThrough | NotModified | Transformed`. The decode, resize and
  encode calls, `ImageHelper.EnsureImageDimensions`, MD5, Base64, the path-extension helper and the
  content-type provider are function values in a `Platform` datatype. Calls that may throw return
  `Call.Threw`. `InvokeAsync` and `ResizeImageAsync` are methods that follow the source's steps and
  are proved equal to the functions `Respond` and `ResizedImage`. The decision properties are
  lemmas about those functions.
- **`HumanReadablePersonalDataWriter`** (`human_readable_personal_data_writer.dfy`, with `personal_data.dfy`).
  A `Writer` class has the source's three fields: the text buffer, the indentation level and the
  `ignoreNewLine` flag. Its methods state the new buffer exactly. `Valid()` is the invariant that a
  set flag means the buffer ends with a new line. The `WriteBaseInfo` loop is specified by
  `WrittenColumns`, which runs the per-column effects and stops at the first exception. Thrown
  exceptions are `Completion` values.
- **`SampleContactDataCollectorCore`** (`sample_contact_data_collector_core.dfy`).
  The value transformations and the loop that groups consent-agreement rows into four
  dictionaries are modelled as methods proved against `Grouped(rows)`. So are the selection made
  for each consent content and the writing of every consent section through the writer. The
  dictionaries are `map`s. The agreements dictionary also keeps its keys in insertion order, the
  order in which it enumerates its values. A `Collector` class holds the writer.
- **`TagViewModel.GetViewModels`** (`tag_view_model.dfy`, `tag_tree_properties.dfy`).
  The recursive local function is a recursive method with a loop over the sorted siblings. It is
  proved equal to the view models of `Walk`, which yields for each emitted tag its chain of
  ancestors. Reachability, uniqueness, levels, pre-order and sibling order are proved about `Walk`.
- **`AreaRestrictionHelper`** and **`ZoneRestrictions`** (`area_restriction_helper.dfy`, `zone_restrictions.dfy`).
  These are filters over the registered widget identifiers, which are taken as the input sequence.

Three facts about the middleware's code shape the model:
- It has no clamping, fit mode, crop anchor or format option, and its quality is fixed. It encodes at quality 80 in the format of the path's content type (src/Middleware/ImageProcessingMiddleware.cs:98-139).
- It counts any parsed 32-bit integer as a given dimension, 0 and negative values included (src/Middleware/ImageProcessingMiddleware.cs:47-60).
- Its ETag hashes only the buffered bytes and the three dimensions, an absent dimension being hashed as 0 (src/Middleware/ImageProcessingMiddleware.cs:167-177).

## Model

| member | source | states |
|---|---|---|
| ImageProcessingMiddleware.IsSupportedContentType | src/Middleware/ImageProcessingMiddleware.cs:153-156 | a content type is supported exactly when, lower-cased, it is one of image/jpeg, image/png, image/gif, image/webp |
| ImageProcessingMiddleware.DefaultContentTypeUnsupported | src/Middleware/ImageProcessingMiddleware.cs:141-151 | the fallback type application/octet-stream is never supported |
| ImageProcessingMiddleware.UnknownExtensionPassesThrough | src/Middleware/ImageProcessingMiddleware.cs:141-151 | a path whose extension the provider does not know is passed through with the buffered bytes |
| ImageProcessingMiddleware.GetImageFormat | src/Middleware/ImageProcessingMiddleware.cs:158-165 | the four exact lower-case types map to Jpeg, Png, Gif and Webp, and every other string maps to Png (both directions of each case) |
| ImageProcessingMiddleware.ImageFormatIsCaseSensitive | src/Middleware/ImageProcessingMiddleware.cs:158-165 | IMAGE/JPEG is supported but encodes as Png: the switch does not ignore case |
| ImageProcessingMiddleware.FindParameter | src/Middleware/ImageProcessingMiddleware.cs:47-57 | a parameter is present exactly when some query name equals it ignoring case; its values are exactly the values of all such entries, merged as the query collection merges names that differ only in case |
| ImageProcessingMiddleware.SingleMatch | src/Middleware/ImageProcessingMiddleware.cs:47-57 | a name that matches exactly one query entry, ignoring case, has that entry's values unchanged |
| ImageProcessingMiddleware.ParseDimension | src/Middleware/ImageProcessingMiddleware.cs:47-60 | a dimension counts as given only with a 32-bit value (which texts give which value is stated by the lemmas in the rows below) |
| ImageProcessingMiddleware.EmptyValuesSkipped | src/Middleware/ImageProcessingMiddleware.cs:47-57 | a parameter's values of which all but one are empty read as that one value, whether it was written once or repeated |
| ImageProcessingMiddleware.EveryIntegerIsGiven | src/Middleware/ImageProcessingMiddleware.cs:47-60 | a parameter written once, anywhere in the query, with the decimal text of an integer is given exactly when that integer fits in 32 bits, zero and negative values included, and then with that value |
| ImageProcessingMiddleware.AbsentIsNotGiven | src/Middleware/ImageProcessingMiddleware.cs:47-60 | a parameter missing from the query is not given |
| ImageProcessingMiddleware.RepeatedParameterIsNotGiven | src/Middleware/ImageProcessingMiddleware.cs:47-60 | a parameter with two or more non-empty values is never given: those values are joined with a comma, which `int.TryParse` rejects |
| ImageProcessingMiddleware.EmptyRepeatsAreSkipped | src/Middleware/ImageProcessingMiddleware.cs:47-60 | a parameter whose values are the decimal text of an integer and otherwise only empty values is given exactly when that integer fits in 32 bits, and then with that value |
| ImageProcessingMiddleware.EmptyWidthIsSkipped | src/Middleware/ImageProcessingMiddleware.cs:47-60 | `?width=&width=100` gives the width 100 |
| ImageProcessingMiddleware.CaseVariantsMerge | src/Middleware/ImageProcessingMiddleware.cs:47-60 | `?width=1&WIDTH=2` has the single width parameter `1,2`, so no width is given |
| ImageProcessingMiddleware.ETagPreimage | src/Middleware/ImageProcessingMiddleware.cs:167-177 | the hashed bytes are the image followed by twelve bytes, so their length is the image length plus 12 |
| ImageProcessingMiddleware.ETagPreimageInjective | src/Middleware/ImageProcessingMiddleware.cs:167-177 | equal hashed bytes mean equal image, width, height and maxSideSize: ETags coincide only through a hash collision |
| ImageProcessingMiddleware.AbsentAndZeroShareETag | src/Middleware/ImageProcessingMiddleware.cs:68 | an absent dimension and a dimension of 0 give the same ETag |
| ImageProcessingMiddleware.ResizeImageAsync | src/Middleware/ImageProcessingMiddleware.cs:98-139 | the method returns `ResizedImage`: the encoder output at quality 80, or the input bytes on each early return and caught exception |
| ImageProcessingMiddleware.ResizeFallsBackToInput | src/Middleware/ImageProcessingMiddleware.cs:100-138 | empty input, an unsupported type, no positive dimension, a throwing or null decode, failed dimensions, a throwing or null resize and a throwing encode each give the input bytes |
| ImageProcessingMiddleware.ResizeSucceeds | src/Middleware/ImageProcessingMiddleware.cs:113-132 | when every step succeeds the result is the encoder output in the content type's format at quality 80 |
| ImageProcessingMiddleware.InvokeAsync | src/Middleware/ImageProcessingMiddleware.cs:25-96 | the method's outcome is `Respond(platform, request)`, and it calls `ResizeImageAsync` exactly when the outcome is Transformed |
| ImageProcessingMiddleware.PassThroughIff | src/Middleware/ImageProcessingMiddleware.cs:35-62 | the buffered bytes are passed through unchanged exactly when the type is unsupported, the path is not under /getContentAsset, or no dimension is given |
| ImageProcessingMiddleware.NotModifiedIff | src/Middleware/ImageProcessingMiddleware.cs:71-77 | a 304 with the ETag is sent exactly when the request is eligible and If-None-Match is that single ETag |
| ImageProcessingMiddleware.NotModifiedIgnoresCodec | src/Middleware/ImageProcessingMiddleware.cs:71-77 | a 304 answer does not depend on the codec: it is decided before any image work |
| ImageProcessingMiddleware.TransformedHeaders | src/Middleware/ImageProcessingMiddleware.cs:79-90 | a transformed response carries the path's supported content type, the ETag, the one-year public Cache-Control and the resized length, and writes the bytes only when the status is not 304 |
| Int32.TryParse | src/Middleware/ImageProcessingMiddleware.cs:47-57 | a successful parse yields a 32-bit integer |
| Int32.CoreSplit | src/Middleware/ImageProcessingMiddleware.cs:47-57 | the number `int.TryParse` reads is the text without leading white space, trailing white space and, after that, trailing NULs; white space is U+0009 to U+000D and U+0020 only |
| Int32.ContentIsInCore | src/Middleware/ImageProcessingMiddleware.cs:47-57 | a character that is neither white space nor NUL is part of the number read |
| Int32.TryParseAccepts | src/Middleware/ImageProcessingMiddleware.cs:47-57 | an optional `+` or `-` and one or more decimal digits, padded with white space and trailing NULs, parse exactly when their value fits in 32 bits, and to that value |
| Int32.TryParseOnlyAccepts | src/Middleware/ImageProcessingMiddleware.cs:47-57 | a text that parses is padding around an optional sign and one or more decimal digits, and the result is their value |
| Int32.StrayCharacterRejected | src/Middleware/ImageProcessingMiddleware.cs:47-57 | a text holding any character other than a sign, a digit, white space or NUL does not parse |
| Int32.StrayCharacterExamples | src/Middleware/ImageProcessingMiddleware.cs:47-57 | `abc`, `1.5`, `1,2` and a number after a no-break space do not parse |
| Int32.EmptyRejected | src/Middleware/ImageProcessingMiddleware.cs:47-57 | the empty text does not parse |
| Int32.PaddedWithWhite | src/Middleware/ImageProcessingMiddleware.cs:47-57 | ` -7` followed by a tab parses to -7 |
| Int32.PaddedWithNul | src/Middleware/ImageProcessingMiddleware.cs:47-57 | `42` followed by a NUL parses to 42 |
| Int32.HundredParses | src/Middleware/ImageProcessingMiddleware.cs:47-57 | `100` parses to 100 |
| Int32.TryParseToText | src/Middleware/ImageProcessingMiddleware.cs:47-60 | the decimal text of every integer parses back to it when it fits in 32 bits, zero and negative values included, and does not parse otherwise (2147483648, for example) |
| Int32.LittleEndian | src/Middleware/ImageProcessingMiddleware.cs:170-172 | `BitConverter.GetBytes(int)` gives four bytes |
| Int32.LittleEndianRoundTrip | src/Middleware/ImageProcessingMiddleware.cs:170-172 | reading the four little-endian bytes back as a signed integer gives the integer |
| Int32.LittleEndianInjective | src/Middleware/ImageProcessingMiddleware.cs:170-172 | two 32-bit integers with the same bytes are equal |
| Text.EqualsIgnoreCaseIsLowerEquality | src/Middleware/ImageProcessingMiddleware.cs:155 | comparing ignoring case is comparing the lower-cased strings |
| Text.EqualsIgnoreCaseIsFoldEquality | examples/DancingGoat/DataProtectionSamples/PersonalDataCollectors/SampleContactDataCollectorCore.cs:440-441 | comparing ignoring case is comparing the folded keys that an ignore-case dictionary files strings under |
| HumanReadablePersonalDataWriter.Tabs | examples/DancingGoat/DataProtectionSamples/PersonalDataCollectors/Writers/HumanReadablePersonalDataWriter.cs:59-62 | indentation is exactly `count` tab characters |
| HumanReadablePersonalDataWriter.LinesAreNonEmpty | examples/DancingGoat/DataProtectionSamples/PersonalDataCollectors/Writers/HumanReadablePersonalDataWriter.cs:126-142 | every line a column writes ends with a new line |
| HumanReadablePersonalDataWriter.ThrowIsFinal | examples/DancingGoat/DataProtectionSamples/PersonalDataCollectors/Writers/HumanReadablePersonalDataWriter.cs:82-103 | after an exception, later columns change nothing |
| HumanReadablePersonalDataWriter.RunGrows | examples/DancingGoat/DataProtectionSamples/PersonalDataCollectors/Writers/HumanReadablePersonalDataWriter.cs:82-103 | the loop only appends: the text after k columns is a prefix of the final text |
| HumanReadablePersonalDataWriter.WrittenColumnsGrow | examples/DancingGoat/DataProtectionSamples/PersonalDataCollectors/Writers/HumanReadablePersonalDataWriter.cs:82-103 | the text written for a prefix of the columns is a prefix of the text for all of them |
| HumanReadablePersonalDataWriter.RunNormalIff | examples/DancingGoat/DataProtectionSamples/PersonalDataCollectors/Writers/HumanReadablePersonalDataWriter.cs:82-103 | the loop ends normally exactly when no column fails |
| HumanReadablePersonalDataWriter.WrittenColumnsNormalIff | examples/DancingGoat/DataProtectionSamples/PersonalDataCollectors/Writers/HumanReadablePersonalDataWriter.cs:82-103 | at a level of 0 or more, `WriteBaseInfo` ends normally exactly when the transformation succeeds for every written column that has a value |
| HumanReadablePersonalDataWriter.OmittedColumnsWriteNothing | examples/DancingGoat/DataProtectionSamples/PersonalDataCollectors/Writers/HumanReadablePersonalDataWriter.cs:86-95 | columns that have no display name, are the ID or GUID column, or have a null value write nothing and throw nothing |
| HumanReadablePersonalDataWriter.WrittenColumnLine | examples/DancingGoat/DataProtectionSamples/PersonalDataCollectors/Writers/HumanReadablePersonalDataWriter.cs:97-102 | a kept column appends one `display name: value` line at the current level, with the value transformed first |
| HumanReadablePersonalDataWriter.WrittenTextEndsWithNewLine | examples/DancingGoat/DataProtectionSamples/PersonalDataCollectors/Writers/HumanReadablePersonalDataWriter.cs:126-142 | what `WriteBaseInfo` writes is empty or ends with a new line |
| HumanReadablePersonalDataWriter.Writer.constructor | examples/DancingGoat/DataProtectionSamples/PersonalDataCollectors/Writers/HumanReadablePersonalDataWriter.cs:33-38 | a fresh writer has an empty buffer, level 0 and the flag cleared |
| HumanReadablePersonalDataWriter.Writer.Indent | examples/DancingGoat/DataProtectionSamples/PersonalDataCollectors/Writers/HumanReadablePersonalDataWriter.cs:59-62 | at a level of 0 or more, appends that many tabs; at a negative level, throws ArgumentOutOfRange and appends nothing |
| HumanReadablePersonalDataWriter.Writer.WriteStartSection | examples/DancingGoat/DataProtectionSamples/PersonalDataCollectors/Writers/HumanReadablePersonalDataWriter.cs:46-53 | clears the flag; at a level of 0 or more appends the indented `name: ` header line and increments the level, at a negative level throws ArgumentOutOfRange and writes nothing; `sectionName` is ignored |
| HumanReadablePersonalDataWriter.Writer.WriteKeyValue | examples/DancingGoat/DataProtectionSamples/PersonalDataCollectors/Writers/HumanReadablePersonalDataWriter.cs:126-142 | appends one indented `key: value` line and sets the flag |
| HumanReadablePersonalDataWriter.Writer.WriteSectionValue | examples/DancingGoat/DataProtectionSamples/PersonalDataCollectors/Writers/HumanReadablePersonalDataWriter.cs:113-118 | appends one indented `name: value` line; level and flag unchanged |
| HumanReadablePersonalDataWriter.Writer.WriteBaseInfo | examples/DancingGoat/DataProtectionSamples/PersonalDataCollectors/Writers/HumanReadablePersonalDataWriter.cs:75-104 | a null info throws ArgumentNull and writes nothing; otherwise the buffer grows by exactly `WrittenColumns` and the flag is set when anything was written |
| HumanReadablePersonalDataWriter.Writer.WriteColumns | examples/DancingGoat/DataProtectionSamples/PersonalDataCollectors/Writers/HumanReadablePersonalDataWriter.cs:82-103 | the loop appends exactly `WrittenColumns` and ends as it does, keeping `Valid()` |
| HumanReadablePersonalDataWriter.Writer.WriteColumn | examples/DancingGoat/DataProtectionSamples/PersonalDataCollectors/Writers/HumanReadablePersonalDataWriter.cs:84-102 | one iteration appends its column's line or nothing, and ends as that column's effect does |
| HumanReadablePersonalDataWriter.Writer.WriteEndSection | examples/DancingGoat/DataProtectionSamples/PersonalDataCollectors/Writers/HumanReadablePersonalDataWriter.cs:151-160 | always decrements the level; when the flag was set writes nothing, otherwise writes an indented blank line and sets the flag (or throws ArgumentOutOfRange below level 0), so consecutive section ends give one blank line |
| HumanReadablePersonalDataWriter.Writer.GetResult | examples/DancingGoat/DataProtectionSamples/PersonalDataCollectors/Writers/HumanReadablePersonalDataWriter.cs:167-170 | returns the buffer and changes nothing |
| SampleContactDataCollectorCore.TransformGenderValue | examples/DancingGoat/DataProtectionSamples/PersonalDataCollectors/SampleContactDataCollectorCore.cs:260-278 | for ContactGender in any case, 1 gives male, 2 gives female and anything else gives undefined; other columns are unchanged |
| SampleContactDataCollectorCore.GenderColumnIgnoresCase | examples/DancingGoat/DataProtectionSamples/PersonalDataCollectors/SampleContactDataCollectorCore.cs:262-273 | a lower-case column name still matches, and a long 1 is not the int 1 |
| SampleContactDataCollectorCore.TransformConsentAction | examples/DancingGoat/DataProtectionSamples/PersonalDataCollectors/SampleContactDataCollectorCore.cs:302-312 | for ConsentAgreementRevoked in any case, true gives Revoked and false gives Agreed, and a non-boolean throws InvalidCast; other columns are unchanged |
| SampleContactDataCollectorCore.TransformConsentText | examples/DancingGoat/DataProtectionSamples/PersonalDataCollectors/SampleContactDataCollectorCore.cs:281-298 | the two content columns, in any case, are replaced by the extracted full text of their string value or of the empty string; other columns are unchanged |
| SampleContactDataCollectorCore.DifferentContentIsCaseSensitive | examples/DancingGoat/DataProtectionSamples/PersonalDataCollectors/SampleContactDataCollectorCore.cs:518-521 | hashes that differ only in case count as different content |
| SampleContactDataCollectorCore.GetRevocationsOfSameConsent | examples/DancingGoat/DataProtectionSamples/PersonalDataCollectors/SampleContactDataCollectorCore.cs:481-491 | returns the stored list when the consent ID is a key; otherwise adds an empty list under it and changes no other key |
| SampleContactDataCollectorCore.GetAgreementsOfSameConsentContent | examples/DancingGoat/DataProtectionSamples/PersonalDataCollectors/SampleContactDataCollectorCore.cs:500-510 | the same for a hash compared ignoring case; a new key goes at the end of the key order |
| SampleContactDataCollectorCore.GroupConsentRows | examples/DancingGoat/DataProtectionSamples/PersonalDataCollectors/SampleContactDataCollectorCore.cs:443-469 | the loop fills the four dictionaries with exactly `Grouped(rows)` |
| SampleContactDataCollectorCore.GroupConsentRow | examples/DancingGoat/DataProtectionSamples/PersonalDataCollectors/SampleContactDataCollectorCore.cs:445-468 | one iteration is one step of `Grouped` |
| SampleContactDataCollectorCore.GroupAgreement | examples/DancingGoat/DataProtectionSamples/PersonalDataCollectors/SampleContactDataCollectorCore.cs:459-468 | an agreeing row is appended under its hash, and an archive is added only for content other than its consent's when the hash has no archive yet |
| SampleContactDataCollectorCore.RevocationsOfConsent | examples/DancingGoat/DataProtectionSamples/PersonalDataCollectors/SampleContactDataCollectorCore.cs:454-458 | revocations hold, under each consent ID with a revoking row, exactly its revocations in row order, and no other keys |
| SampleContactDataCollectorCore.AgreementsOfContent | examples/DancingGoat/DataProtectionSamples/PersonalDataCollectors/SampleContactDataCollectorCore.cs:459-463 | agreements hold, under each hash ignoring case, exactly the agreeing rows with that hash in row order, and no other keys |
| SampleContactDataCollectorCore.EveryRowInOneBucket | examples/DancingGoat/DataProtectionSamples/PersonalDataCollectors/SampleContactDataCollectorCore.cs:454-468 | each row is in exactly one bucket: a revocation under its consent ID, or otherwise an agreement under its hash |
| SampleContactDataCollectorCore.GroupedAgreementsValid | examples/DancingGoat/DataProtectionSamples/PersonalDataCollectors/SampleContactDataCollectorCore.cs:500-510 | the key order of the agreements dictionary lists each of its keys exactly once |
| SampleContactDataCollectorCore.ConsentKeys | examples/DancingGoat/DataProtectionSamples/PersonalDataCollectors/SampleContactDataCollectorCore.cs:447-452 | the consents dictionary has a key for exactly the consent IDs of the rows |
| SampleContactDataCollectorCore.ConsentsNeverOverwritten | examples/DancingGoat/DataProtectionSamples/PersonalDataCollectors/SampleContactDataCollectorCore.cs:447-452 | a recorded consent is never replaced by a later row |
| SampleContactDataCollectorCore.ConsentIsFirstRow | examples/DancingGoat/DataProtectionSamples/PersonalDataCollectors/SampleContactDataCollectorCore.cs:447-452 | the consent recorded for an ID is read from the first row with that ID |
| SampleContactDataCollectorCore.ConsentsCoverAgreements | examples/DancingGoat/DataProtectionSamples/PersonalDataCollectors/SampleContactDataCollectorCore.cs:447-452 | every agreement and revocation refers to a recorded consent |
| SampleContactDataCollectorCore.ArchiveKeys | examples/DancingGoat/DataProtectionSamples/PersonalDataCollectors/SampleContactDataCollectorCore.cs:464-467 | archives are recorded for exactly the hashes of agreeing rows whose content differs from their consent's |
| SampleContactDataCollectorCore.ArchiveIsFirstRow | examples/DancingGoat/DataProtectionSamples/PersonalDataCollectors/SampleContactDataCollectorCore.cs:464-467 | the archive recorded for a hash is the first such row's |
| SampleContactDataCollectorCore.ArchivesNeverOverwritten | examples/DancingGoat/DataProtectionSamples/PersonalDataCollectors/SampleContactDataCollectorCore.cs:464-467 | a recorded archive is never replaced |
| SampleContactDataCollectorCore.Lookup | examples/DancingGoat/DataProtectionSamples/PersonalDataCollectors/SampleContactDataCollectorCore.cs:540-544 | `TryGetValue` gives a value exactly for a key, and that key's value |
| SampleContactDataCollectorCore.SelectionNeverFails | examples/DancingGoat/DataProtectionSamples/PersonalDataCollectors/SampleContactDataCollectorCore.cs:534-546 | after grouping, the selection never throws: it writes a content's agreements with the first agreement's consent, the archive of that content and the revocations of that consent |
| SampleContactDataCollectorCore.RevocationsToWrite | examples/DancingGoat/DataProtectionSamples/PersonalDataCollectors/SampleContactDataCollectorCore.cs:563-567 | a null revocation list stays null; otherwise the result keeps, in order, exactly the revocations strictly later than the agreed content's last modification |
| SampleContactDataCollectorCore.SimultaneousRevocationIsDropped | examples/DancingGoat/DataProtectionSamples/PersonalDataCollectors/SampleContactDataCollectorCore.cs:567 | a revocation at the very time of the last modification is not written |
| SampleContactDataCollectorCore.ContactsOf | examples/DancingGoat/DataProtectionSamples/PersonalDataCollectors/SampleContactDataCollectorCore.cs:355 | the contacts are exactly the identities that are contacts |
| SampleContactDataCollectorCore.AllContactGroups | examples/DancingGoat/DataProtectionSamples/PersonalDataCollectors/SampleContactDataCollectorCore.cs:369-370 | the groups are exactly those of some contact |
| SampleContactDataCollectorCore.DistinctContactGroups | examples/DancingGoat/DataProtectionSamples/PersonalDataCollectors/SampleContactDataCollectorCore.cs:369-372 | the result has one group per contact group ID, covers every ID, and takes its groups from the input |
| SampleContactDataCollectorCore.DistinctKeepsFirst | examples/DancingGoat/DataProtectionSamples/PersonalDataCollectors/SampleContactDataCollectorCore.cs:369-372 | the group kept for an ID is its first occurrence |
| SampleContactDataCollectorCore.Section | examples/DancingGoat/DataProtectionSamples/PersonalDataCollectors/SampleContactDataCollectorCore.cs:561-569 | a section at a negative level throws; otherwise it opens with its header and ends as its body does |
| SampleContactDataCollectorCore.SequencedThrowIsFinal | examples/DancingGoat/DataProtectionSamples/PersonalDataCollectors/SampleContactDataCollectorCore.cs:596-602 | once one of successive writes throws, the later ones write nothing |
| SampleContactDataCollectorCore.SequencedNormalParts | examples/DancingGoat/DataProtectionSamples/PersonalDataCollectors/SampleContactDataCollectorCore.cs:534-547 | a sequence of writes that ends normally is one whose every write ended normally |
| SampleContactDataCollectorCore.AgreementsStep | examples/DancingGoat/DataProtectionSamples/PersonalDataCollectors/SampleContactDataCollectorCore.cs:598-601 | one more agreement appends that agreement's columns |
| SampleContactDataCollectorCore.ConsentsStep | examples/DancingGoat/DataProtectionSamples/PersonalDataCollectors/SampleContactDataCollectorCore.cs:534-547 | one more content appends that content's consent section |
| SampleContactDataCollectorCore.SectionEndsWithNewLine | examples/DancingGoat/DataProtectionSamples/PersonalDataCollectors/SampleContactDataCollectorCore.cs:561-569 | a section that ends normally ends with a new line when its body's text is empty or does |
| SampleContactDataCollectorCore.ConsentBodyEndsWithNewLine | examples/DancingGoat/DataProtectionSamples/PersonalDataCollectors/SampleContactDataCollectorCore.cs:565-567 | what a consent writes inside its section is empty or ends with a new line |
| SampleContactDataCollectorCore.ConsentSectionShape | examples/DancingGoat/DataProtectionSamples/PersonalDataCollectors/SampleContactDataCollectorCore.cs:558-570 | a consent section that ends normally opens with its Consent header and ends with a new line |
| SampleContactDataCollectorCore.AgreementsEndWithNewLine | examples/DancingGoat/DataProtectionSamples/PersonalDataCollectors/SampleContactDataCollectorCore.cs:596-602 | the agreements' text is empty or ends with a new line |
| SampleContactDataCollectorCore.AgreementsWriteNormally | examples/DancingGoat/DataProtectionSamples/PersonalDataCollectors/SampleContactDataCollectorCore.cs:596-602 | agreements whose revoked column holds a boolean or null are written without an exception |
| SampleContactDataCollectorCore.ContentWritesNormally | examples/DancingGoat/DataProtectionSamples/PersonalDataCollectors/SampleContactDataCollectorCore.cs:578-589 | at a valid level, a consent's content is written without an exception exactly when its written content column is omitted, null, or holds a text whose full text extracts without throwing |
| SampleContactDataCollectorCore.SectionWritesNormally | examples/DancingGoat/DataProtectionSamples/PersonalDataCollectors/SampleContactDataCollectorCore.cs:534-547 | when revoked columns hold booleans, the section of one grouped content is written without an exception exactly when its consent is selected and that consent's content text extracts without throwing |
| SampleContactDataCollectorCore.SectionsNormalIff | examples/DancingGoat/DataProtectionSamples/PersonalDataCollectors/SampleContactDataCollectorCore.cs:534-547 | when revoked columns hold booleans, every content's section is written normally exactly when every selected consent's content text extracts without throwing |
| SampleContactDataCollectorCore.SectionsWriteNormally | examples/DancingGoat/DataProtectionSamples/PersonalDataCollectors/SampleContactDataCollectorCore.cs:534-547 | the loop over contents ends normally when each content's section does |
| SampleContactDataCollectorCore.WrittenConsentsNormalIff | examples/DancingGoat/DataProtectionSamples/PersonalDataCollectors/SampleContactDataCollectorCore.cs:534-547 | the loop over the contents ends normally exactly when every content's section does |
| SampleContactDataCollectorCore.ConsentsWriteNormally | examples/DancingGoat/DataProtectionSamples/PersonalDataCollectors/SampleContactDataCollectorCore.cs:420-472 | at a valid level and with boolean revoked columns, writing the consents of a query result ends normally exactly when the content text of every selected consent extracts without throwing; the dictionary lookups never throw |
| SampleContactDataCollectorCore.Collector.constructor | examples/DancingGoat/DataProtectionSamples/PersonalDataCollectors/SampleContactDataCollectorCore.cs:326-344 | the collector keeps the writer it is given |
| SampleContactDataCollectorCore.Collector.CollectData | examples/DancingGoat/DataProtectionSamples/PersonalDataCollectors/SampleContactDataCollectorCore.cs:353-386 | no contact among the identities gives null and leaves the writer unchanged; otherwise it writes the Online marketing data section and returns the whole buffer, or the exception |
| SampleContactDataCollectorCore.Collector.WriteConsentsOfRows | examples/DancingGoat/DataProtectionSamples/PersonalDataCollectors/SampleContactDataCollectorCore.cs:420-472 | an empty query result writes nothing; otherwise it writes exactly the grouped contents' sections |
| SampleContactDataCollectorCore.Collector.WriteConsents | examples/DancingGoat/DataProtectionSamples/PersonalDataCollectors/SampleContactDataCollectorCore.cs:531-548 | writes one consent section per content, in the order contents were first met, stopping at the first exception |
| SampleContactDataCollectorCore.Collector.WriteContentAt | examples/DancingGoat/DataProtectionSamples/PersonalDataCollectors/SampleContactDataCollectorCore.cs:534-547 | one iteration takes the writer from the state after i contents to the state after i + 1 |
| SampleContactDataCollectorCore.Collector.WriteContent | examples/DancingGoat/DataProtectionSamples/PersonalDataCollectors/SampleContactDataCollectorCore.cs:536-546 | writes the selected consent's section; an empty list throws InvalidOperation and a missing consent throws KeyNotFound |
| SampleContactDataCollectorCore.Collector.WriteConsent | examples/DancingGoat/DataProtectionSamples/PersonalDataCollectors/SampleContactDataCollectorCore.cs:558-570 | appends exactly the consent section and, when it ends normally, restores the level |
| SampleContactDataCollectorCore.Collector.WriteConsentBody | examples/DancingGoat/DataProtectionSamples/PersonalDataCollectors/SampleContactDataCollectorCore.cs:563-567 | appends the content, the agreements and the later revocations, stopping at the first exception |
| SampleContactDataCollectorCore.Collector.WriteConsentContent | examples/DancingGoat/DataProtectionSamples/PersonalDataCollectors/SampleContactDataCollectorCore.cs:578-589 | writes the consent's columns, or the consent name line and then the archive's columns |
| SampleContactDataCollectorCore.Collector.WriteConsentAgreements | examples/DancingGoat/DataProtectionSamples/PersonalDataCollectors/SampleContactDataCollectorCore.cs:596-602 | appends each agreement's columns in turn, stopping at the first exception |
| SampleContactDataCollectorCore.Collector.WriteAgreement | examples/DancingGoat/DataProtectionSamples/PersonalDataCollectors/SampleContactDataCollectorCore.cs:598-601 | one iteration appends the i-th agreement's columns |
| SampleContactDataCollectorCore.Collector.WriteConsentRevocations | examples/DancingGoat/DataProtectionSamples/PersonalDataCollectors/SampleContactDataCollectorCore.cs:609-620 | writes nothing for null; otherwise writes as the agreements loop does |
| Seqs.Filter | examples/DancingGoat/Helpers/AreaRestrictionHelper.cs:21-23 | `Where` keeps only elements that satisfy the predicate, and never more than the input |
| Seqs.FilterIsSubsequence | examples/DancingGoat/Helpers/AreaRestrictionHelper.cs:21-23 | `Where` keeps the input order |
| Seqs.FilterCount | examples/DancingGoat/Components/Sections/ZoneRestrictions.cs:35-36 | `Where` keeps each satisfying element as often as it occurs, and drops every other element |
| Seqs.FilterMembership | examples/DancingGoat/Helpers/AreaRestrictionHelper.cs:21-23 | an element is kept exactly when it is in the input and satisfies the predicate |
| Seqs.FilterNone | examples/DancingGoat/Helpers/AreaRestrictionHelper.cs:21-23 | nothing is kept when no element satisfies the predicate |
| TagTree.GetViewModel | examples/DancingGoat/Models/Reusable/Tag/TagViewModel.cs:13-16 | the view model has the tag's title and identifier, the given level, and is unchecked |
| TagTree.GroupByParent | examples/DancingGoat/Models/Reusable/Tag/TagViewModel.cs:22 | the grouping has a key for exactly the parent IDs that occur, each holding that parent's tags in input order |
| TagTree.SortByOrder | examples/DancingGoat/Models/Reusable/Tag/TagViewModel.cs:34 | siblings are sorted by Order and are a permutation of the input |
| TagTree.SortIsStable | examples/DancingGoat/Models/Reusable/Tag/TagViewModel.cs:34 | tags of equal Order keep their input order |
| TagTree.SortMembership | examples/DancingGoat/Models/Reusable/Tag/TagViewModel.cs:34 | sorting keeps exactly the same tags |
| TagTree.ChildrenMembership | examples/DancingGoat/Models/Reusable/Tag/TagViewModel.cs:36 | the children of an ID are exactly the input tags with that parent |
| TagTree.ChainIdsDistinct | examples/DancingGoat/Models/Reusable/Tag/TagViewModel.cs:32-40 | with unique non-zero IDs a walk down parent links never revisits an ID, which is why the recursion ends |
| TagTree.Walk | examples/DancingGoat/Models/Reusable/Tag/TagViewModel.cs:32-40 | every chain the walk yields is longer than the path it starts below |
| TagTree.ViewModelsOf | examples/DancingGoat/Models/Reusable/Tag/TagViewModel.cs:37 | each entry is the view model of its chain's last tag at the chain's depth |
| TagTree.WalkStep | examples/DancingGoat/Models/Reusable/Tag/TagViewModel.cs:34-39 | one sibling contributes its own view model, then its subtree's, then the later siblings' |
| TagTree.GetTagsWithTagViewModels | examples/DancingGoat/Models/Reusable/Tag/TagViewModel.cs:32-40 | the local function appends exactly the view models of the walk over the sorted siblings |
| TagTree.Flattened | examples/DancingGoat/Models/Reusable/Tag/TagViewModel.cs:24-27 | every chain of the flattening has at least one tag |
| TagTree.GetViewModels | examples/DancingGoat/Models/Reusable/Tag/TagViewModel.cs:19-41 | the result is exactly the view models of the walk from the root over its children |
| TagTreeProperties.WalkSound | examples/DancingGoat/Models/Reusable/Tag/TagViewModel.cs:32-40 | every chain the walk yields is a chain of the input through one of the siblings |
| TagTreeProperties.WalkComplete | examples/DancingGoat/Models/Reusable/Tag/TagViewModel.cs:32-40 | every chain of the input through one of the siblings is yielded |
| TagTreeProperties.WalkDistinct | examples/DancingGoat/Models/Reusable/Tag/TagViewModel.cs:32-40 | over distinct siblings, no chain is yielded twice |
| TagTreeProperties.ChildrenDistinct | examples/DancingGoat/Models/Reusable/Tag/TagViewModel.cs:22-36 | with unique IDs no tag is listed twice among a tag's children |
| TagTreeProperties.SingleIffRootChild | examples/DancingGoat/Models/Reusable/Tag/TagViewModel.cs:24-26 | a chain is a single tag exactly when that tag's parent is the root |
| TagTreeProperties.ChainUnique | examples/DancingGoat/Models/Reusable/Tag/TagViewModel.cs:32-40 | a chain is determined by its last tag |
| TagTreeProperties.FlattenedIsAllChains | examples/DancingGoat/Models/Reusable/Tag/TagViewModel.cs:19-41 | the flattening holds exactly the non-empty chains of the input |
| TagTreeProperties.EmitsExactlyReachable | examples/DancingGoat/Models/Reusable/Tag/TagViewModel.cs:19-41 | with unique non-zero IDs, exactly the tags reachable from the root are emitted |
| TagTreeProperties.EmitsEachOnce | examples/DancingGoat/Models/Reusable/Tag/TagViewModel.cs:19-41 | no tag is emitted twice |
| TagTreeProperties.OutputNoLongerThanInput | examples/DancingGoat/Models/Reusable/Tag/TagViewModel.cs:19-41 | the output is never longer than the input |
| TagTreeProperties.EmptyIffNoRootChild | examples/DancingGoat/Models/Reusable/Tag/TagViewModel.cs:24-29 | the output is empty exactly when no tag has parent 0 |
| TagTreeProperties.WalkPreOrder | examples/DancingGoat/Models/Reusable/Tag/TagViewModel.cs:37-38 | the walk emits each tag before its descendants and each subtree as a contiguous run |
| TagTreeProperties.FlattenedPreOrder | examples/DancingGoat/Models/Reusable/Tag/TagViewModel.cs:37-38 | the whole output is in pre-order with contiguous subtrees |
| TagTreeProperties.ParentChainFirst | examples/DancingGoat/Models/Reusable/Tag/TagViewModel.cs:37-38 | the parent of an emitted non-root tag is emitted before it |
| TagTreeProperties.Levels | examples/DancingGoat/Models/Reusable/Tag/TagViewModel.cs:26-38 | levels are at least 0; level 0 means a root child; any other level is one more than the level of the earlier-emitted parent |
| TagTreeProperties.FilterBefore | examples/DancingGoat/Models/Reusable/Tag/TagViewModel.cs:22 | filtering keeps the relative order of the kept elements |
| TagTreeProperties.ChildrenOrder | examples/DancingGoat/Models/Reusable/Tag/TagViewModel.cs:34 | among a tag's sorted children, an earlier one has no greater Order and, on a tie, comes earlier in the input |
| TagTreeProperties.WalkSiblingOrder | examples/DancingGoat/Models/Reusable/Tag/TagViewModel.cs:34 | the walk keeps siblings in their sorted order |
| TagTreeProperties.SiblingsAscending | examples/DancingGoat/Models/Reusable/Tag/TagViewModel.cs:34 | two emitted siblings appear in ascending Order, and on a tie in input order |
| AreaRestrictionHelper.GetLandingPageRestrictions | examples/DancingGoat/Helpers/AreaRestrictionHelper.cs:17-24 | an identifier is kept exactly when it starts, ignoring case, with Kentico., DancingGoat.General. or DancingGoat.LandingPage.; the result keeps input order and is no longer than the input |
| AreaRestrictionHelper.LandingPageRestrictionsCount | examples/DancingGoat/Helpers/AreaRestrictionHelper.cs:21-23 | an in-scope identifier is kept as often as it occurs, and an out-of-scope one never |
| AreaRestrictionHelper.NoScopedIdentifierGivesEmpty | examples/DancingGoat/Helpers/AreaRestrictionHelper.cs:21-23 | with no identifier in scope, the result is empty |
| AreaRestrictionHelper.ScopeMatchIgnoresCase | examples/DancingGoat/Helpers/AreaRestrictionHelper.cs:22 | kentico.x is kept and DancingGoat.Other is dropped |
| ZoneRestrictions.WithoutRestricted | examples/DancingGoat/Components/Sections/ZoneRestrictions.cs:35-36 | the result holds, in input order and as many times as the input holds them, exactly the input identifiers that are not restricted |
| ZoneRestrictions.GetNarrowZoneRestrictions | examples/DancingGoat/Components/Sections/ZoneRestrictions.cs:29-37 | narrow zones allow every identifier except DancingGoat.LandingPage.HeroImage, in input order |
| ZoneRestrictions.GetWideZoneRestrictions | examples/DancingGoat/Components/Sections/ZoneRestrictions.cs:43-51 | wide zones allow every identifier except DancingGoat.LandingPage.CardWidget, in input order |
| ZoneRestrictions.RestrictionsAreComplementary | examples/DancingGoat/Components/Sections/ZoneRestrictions.cs:29-51 | the card widget stays allowed in narrow zones and the hero image in wide zones |
| ZoneRestrictions.ExclusionIsCaseSensitive | examples/DancingGoat/Components/Sections/ZoneRestrictions.cs:36 | a differently-cased hero-image identifier is kept |

## Left out

- I/O and framework plumbing: `HttpContext`, the stream swap, `CopyStreamAndRestore`, async/await, `Task.Run` and event-log calls. The model keeps only their observable result, the `Outcome` value.
- SkiaSharp decode, resize and encode, `ImageHelper.EnsureImageDimensions`, MD5, Base64, `CMS.IO.Path.GetExtension` and `FileExtensionContentTypeProvider` are function values with no behaviour of their own. No dimension algorithm is invented for them.
- `ImageProcessingMiddleware.InvokeAsync` ignores the status code the origin set on the pass-through paths, and the body of a 304 answer, since neither is written by the middleware.
- `ImageProcessingMiddleware.IsSupportedContentType`: case-insensitive comparison folds ASCII letters only. The same holds for `Text.EqualsIgnoreCaseIsFoldEquality` and every other ignore-case comparison; full Unicode case mapping is not modelled.
- `Int32.TryParse`: the culture's sign symbols are fixed to `+` and `-` (the invariant and most cultures). The other `NumberStyles.Integer` rules are modelled: white space U+0009 to U+000D and U+0020 on both sides, and trailing NULs.
- `HumanReadablePersonalDataWriter.NewLine`: `Environment.NewLine` is fixed to a line feed, its value on Linux and macOS. The carriage return and line feed it is on Windows are not modelled.
- `HumanReadablePersonalDataWriter.Writer.WriteKeyValue`: culture-dependent and decimal formatting is the abstract `format` function of the writer.
- `Culture` property and `Dispose` of the writer: the culture is folded into `format`, and `Dispose` does nothing.
- `SampleContactDataCollectorCore.Collector.CollectData`: only the consents part of the report is written. `WriteContacts`, `WriteContactActivities`, `WriteContactAccounts`, `WriteContactGroups` and the forms data read the database and are not modelled. The de-duplicated contact groups are computed (`DistinctContactGroups`) but not written.
- Database queries: the consent query of `WriteConsents(contactIDs)` is replaced by its result rows, given as a parameter in the order the query sorts them.
- `TransfromConsentText`: XML loading, selecting the first `FullText` node and stripping HTML tags are the `fullText` function parameter. The model spells the member `TransformConsentText`.
- The dictionaries' lists are values: the source appends to the list object a dictionary holds, and the model stores the extended list back under its key. Aliasing between the two is not modelled.
- `TagTree.GetViewModels` requires unique tag IDs and no ID equal to 0, as the database's positive, unique tag IDs guarantee. Outside that, the source emits a tag twice when IDs repeat without a cycle, and recurses forever on a tag with ID 0 under parent 0 or on repeated IDs that close a cycle reachable from the root. A cycle of unique IDs is never reached from the root, so it ends.
- `TagTree.Tag` keeps only the tag fields the walk reads; the taxonomy and content engine are not modelled.
- Widget identifiers come from `ComponentDefinitionProvider<WidgetDefinition>`, which is not part of this model. They are the input sequence of the filters.
