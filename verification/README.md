# PassKeeper, modelled in Dafny

PassKeeper is a password manager for the command line, written in C. This project models its self-contained
algorithms and proves what they promise: the suggestion of similar commands, the option parser, the record file, the
conversions that work inside one buffer, the growth of arrays, and the removal of half-made files when a run fails.

| module | models | idea |
|---|---|---|
| `EditDistance` | `src/levenshtein.c` | The three rotating rows refine a full table; the table is the minimum over all edit scripts, an independent notion |
| `MergeSort` | `src/sort.c` | The in-place sort with one scratch buffer refines a recursive function, which is the unique stable sort |
| `Suggestion` | `src/command.c` | Distance, sort and selection together give the names of least score in table order |
| `Growth` | `src/helper.h` | Checked sizes and the capacity policy, with the cost of copying over whole runs |
| `StrList`, `StrBuf` | `src/strlist.c`, `src/strbuf.c` | The growing list and the growing string, updated in place |
| `RecordFile`, `RecordRoundTrip`, `RecordSections` | `src/handle-record.c` | The printer and the reader, what they do to each other, and what any file means |
| `HexCodec` | `src/security.c` | Hexadecimal and blob keys, forward and backward in one buffer |
| `CipherFrames` | `src/cipher-config.c` | The tag, length, payload framing and the cursor over it |
| `LongOption`, `OptionRun`, `OptionSpellings`, `OptionEffects`, `ParseOptions` | `src/parse-option.c` | What an argument means, what a run does, which spellings agree, what each option stores, and the parser over argv in place |
| `AtexitChain`, `Commands` | `src/atexit-chain.c`, `src/command/init.c`, `src/command/create.c` | The cleanup protocol of two commands, with failure possible at every call |

`Wrappers` holds the option type, the source's NULL, and `Arithmetic` two facts about products. Code that changes things step by step is a method with loops, on
arrays and on classes with the source's fields. Each such method is proved against a function of its inputs or of the
old state, and the lemmas are about that function. Where a proof is expensive, `hide` keeps definitions out of it and
small lemmas unfold them one step at a time.

Where the code falls short of what it is meant to do, the model follows the code, and a lemma says exactly when the
two agree:

- `strlist_filter` reads the list size while it lowers it, so its last segment is cut short (src/strlist.c:146-153).
  `StrList.List.Filter` gives its exact result for every list, `StrList.FilterExact` and
  `StrList.FilterExactForDistinct` say when it is a filter. When it is not, a rejected element that has been freed stays
  in the list, or an element stays twice and is freed twice later (`StrList.FilterSoundExactly`);
  `StrList.FilterLosesLastLine` shows such a list.
- For a record file this means: the first filter leaves nothing freed exactly when it drops at most one line or the
  text ends in a newline or a comment (`RecordFile.SafeTextExactly`), and the second one, which runs when a required
  field is missing, exactly when it drops at most one line or the last one (`RecordFile.DefinedExactly`).
  `RecordFile.MissingNewlineCorrupts` shows a file of which a freed line is read.
- The table of `deserialize_cipher_config` counts from 0 and the tags from 1, and the key is written under tags that
  are one too small (src/cipher-config.c:41-45, 122, 150-157, 195-205). A passphrase makes the reader abort, a binary key
  or an HMAC algorithm makes it store outside an object (`CipherFrames.ReadableExactly`), and whatever it does read comes
  back one member further (`CipherFrames.ValuesComeBackShifted`), never as what was written
  (`CipherFrames.NoConfigComesBack`).
- The test on unsigned option values is inverted (src/parse-option.c:150): such an option takes exactly what is no number
  (`OptionRun.UnsignedTakesNoNumber`), so over whole runs its variable is never written
  (`OptionRun.UnsignedIsNeverStored`).
- A negatable option whose name begins its own negated form cannot be negated (src/parse-option.c:368-417):
  `LongOption.SpellsExactly`, `LongOption.NegationOutOfReach`.
- `--name=VAL` and `--name VAL` agree on every value and every rest of the command line exactly when `name` is spelled in
  full, abbreviates no negated option, or abbreviates two options plainly (`OptionSpellings.SpellingsAgreeExactly`);
  `OptionSpellings.AbbreviationDiffers` is a table on which they do not.
- A cheap transposition breaks the triangle inequality: `EditDistance.TriangleInequality` is an equivalence.

## Model

| member | source | states |
|---|---|---|
| `EditDistance.LevenshteinW` | src/levenshtein.c:23-94 | For all strings and weights of either sign, the three-row loop returns the least total weight over all scripts of match, substitute, insert, delete and adjacent transposition |
| `EditDistance.FillRow` | src/levenshtein.c:46-79 | From the two rows above, the inner loop fills the next row of the full table |
| `EditDistance.DistanceIsMinimumCost` | src/levenshtein.c:38-88 | The full table holds that minimum: some script attains it and no script beats it |
| `EditDistance.NoScriptIsCheaper` | src/levenshtein.c:50-78 | Every legal edit script costs at least the distance between what it reads and what it writes |
| `EditDistance.SomeScriptAttains` | src/levenshtein.c:50-78 | For every cell there is a script between the two prefixes of exactly its cost |
| `EditDistance.PricesMean` | src/levenshtein.c:50-78 | What each weight is the price of: the distances of the smallest pairs of strings that differ by one insertion, deletion, substitution or swap |
| `EditDistance.CellOfPrefix` | src/levenshtein.c:43-79 | A cell depends on the two prefixes alone, whatever follows them |
| `EditDistance.Borders` | src/levenshtein.c:38-46 | The products that the source writes into the borders are the costs of inserting or deleting a whole prefix |
| `EditDistance.CellUpperBound` | src/levenshtein.c:38-88 | Cell (i, j) is at most i deletions and j insertions, for weights of either sign |
| `EditDistance.CellLowerBound` | src/levenshtein.c:38-88 | With non-negative weights cell (i, j) is at least 0, (j - i) insertions and (i - j) deletions |
| `EditDistance.NoIntOverflow` | src/levenshtein.c:38-77 | With non-negative weights whose totals fit, no product or sum formed for any cell, border cells and empty strings included, leaves the range of int |
| `EditDistance.SwappingStrings` | src/levenshtein.c:38-88 | Swapping the strings equals swapping the prices of insertion and deletion |
| `EditDistance.ReversingBothStrings` | src/levenshtein.c:38-88 | The distance is unchanged when both strings are reversed |
| `EditDistance.DearTranspositionNeverPays` | src/levenshtein.c:60-66 | If a transposition costs at least an insertion and a deletion, or two substitutions, every cell is that of the table without transposition |
| `EditDistance.PlainExactlyWhenDear` | src/levenshtein.c:60-66 | With non-negative weights the result is plain weighted Levenshtein distance on all strings if and only if transposition is that dear |
| `EditDistance.PlainTriangle` | src/levenshtein.c:50-78 | Plain weighted Levenshtein distance obeys the triangle inequality, for all prefixes of all three strings |
| `EditDistance.TriangleInequality` | src/levenshtein.c:50-78 | With non-negative weights the distance obeys the triangle inequality on all strings if and only if transposition is that dear |
| `MergeSort.Sort` | src/sort.c:76-86 | The first nmemb elements become the merge-sorted sequence, for any comparator, and the rest stays |
| `MergeSort.MergeSortNext` | src/sort.c:25-74 | The segment is replaced by its merge-sorted form although both recursive calls and the merge share one scratch buffer; nothing outside it moves |
| `MergeSort.MergeLoop` | src/sort.c:50-66 | The loop leaves the merge of what it has taken in the buffer, with one run used up and the array untouched |
| `MergeSort.MergeRuns` | src/sort.c:48-73 | Two neighbouring runs are replaced by their merge; what is left of the right run is not copied |
| `MergeSort.LeftoverInPlace` | src/sort.c:68-73 | The uncopied rest of the right run already stands where the merge puts it |
| `MergeSort.MergeIsStable` | src/sort.c:50-66 | Merging two ordered runs is a stable sort of their concatenation |
| `MergeSort.MergeSortedIsStable` | src/sort.c:25-74 | For a total preorder on the elements the result is ordered, a permutation, and keeps equals in their order |
| `MergeSort.StableSortIsUnique` | src/sort.c:25-74 | Two ordered sequences with the same equals in the same order are the same sequence |
| `MergeSort.MergeSortedIsTheStableSort` | src/sort.c:25-74 | A sequence is a stable sort of the input if and only if it is what the merge sort returns |
| `MergeSort.MergeSortedIsInsertionSorted` | src/sort.c:25-74 | The merge sort agrees with a simple stable insertion sort |
| `Suggestion.GetApproximateCommand` | src/command.c:86-136 | For every table and input: nothing if and only if the input begins no name and every edit script to every name costs more than 5, at 1 for an insertion, 3 for a deletion, 2 for a substitution and 0 for a swap; otherwise exactly the names of least score in table order, cut to the first 7 only when every name scores 0 |
| `Suggestion.ScoreCommands` | src/command.c:92-109 | Every name in table order with its score: 0 for a prefix, else the distance at the prices 1, 3, 2, 0 |
| `Suggestion.ScoreOne` | src/command.c:99-107 | One score: 0 for a prefix, otherwise the least cost of a script at those prices |
| `Suggestion.ScoreMeans` | src/command.c:99-107 | The score function has the same meaning |
| `Suggestion.EditsCost` | src/command.c:105-106 | What one edit of each kind adds to a score |
| `Suggestion.CutPerfect` | src/command.c:118-126 | The list is cut to 7 elements exactly when all scores are 0 |
| `Suggestion.ComparIsTotal` | src/command.c:76-84 | On scores that fit int the truncating comparator is a total preorder |
| `Suggestion.HeadIsLeast` | src/command.c:111-113 | The head of the sorted list has the least score of all names |
| `Suggestion.AllPerfectSorted` | src/command.c:118-126 | All sorted scores are 0 if and only if every name scores 0, and then the sort leaves the table order alone |
| `Suggestion.LeadingNames` | src/command.c:128-132 | The leading run of equal scores holds the names of least score in table order |
| `Suggestion.CutOnlyForEmptyCommand` | src/command.c:43-59 | With the program's own commands every name scores 0 if and only if the input is empty |
| `Growth.StMultExact` | src/helper.h:71-79 | The division test is exact: st_mult ends the process if and only if the product leaves size_t, and traps if and only if the first factor is 0 |
| `Growth.StAddExact` | src/helper.h:59-67 | The subtraction test is exact: st_add ends the process if and only if the sum leaves size_t |
| `Growth.FixedGrowthExact` | src/helper.h:83-84 | When the growth formula fits, and that it then exceeds the old capacity |
| `Growth.CapacityGrowCovers` | src/helper.h:106-116 | A capacity that is granted covers the request and never shrinks, and its bytes fit size_t |
| `Growth.CapacityGrowExact` | src/helper.h:106-116 | The capacity that is granted, and exactly when the process survives the request |
| `Growth.AmortisedCopying` | src/helper.h:106-116 | After n pushes from empty, moved <= 2 capacity, 2 capacity <= 3n + 45, so at most 3n + 45 elements have ever been moved |
| `Growth.PushesSurvive` | src/helper.h:106-116 | As long as width (3n + 45) fits size_t, no push ends the process |
| `Growth.CapacityGrowIsGrown` | src/helper.h:106-116 | Whenever the checked macro returns, it returns the capacity of the policy without limits |
| `StrList.List.Push` | src/strlist.c:57-73 | The element is appended, and the bound on all moves so far is kept |
| `StrList.List.Pop` | src/strlist.c:75-83 | The last element goes and is returned; NULL if and only if the list was empty |
| `StrList.List.Split` | src/strlist.c:85-119 | The pieces of the string, at most maxsplit of them, are appended and counted |
| `StrList.JoinUndoesSplit` | src/strlist.c:95-118 | Joining with the delimiter undoes the split, for every string and every maxsplit |
| `StrList.PieceCount` | src/strlist.c:95-118 | There is one piece more than delimiters, but no more pieces than asked for, and only the last one may hold delimiters |
| `StrList.SplitUndoesJoin` | src/strlist.c:95-118 | An unlimited split undoes the join of a non-empty list if and only if no part contains the delimiter |
| `StrList.List.Join` | src/strlist.c:157-205 | The growing buffer ends up holding the elements, each with its ext string in front, behind or left out, with separators between them and none at the end |
| `StrList.JoinIsTerminated` | src/strlist.c:175-202 | Writing a separator after every element and cutting the last one off is joining |
| `StrList.OneExt` | src/strlist.c:187-198 | Where the ext string of an element goes in each mode |
| `StrList.PlainExts` | src/strlist.c:179-180 | Without ext strings the elements join as they are |
| `StrList.List.Filter` | src/strlist.c:121-155 | The exact contents after the in-place compaction, for every list and every test |
| `StrList.List.Shift` | src/strlist.c:146-151 | One segment moves down by the number of elements rejected so far; nothing else changes |
| `StrList.CompactionRound` | src/strlist.c:139-154 | One round of the outer loop extends the compacted part up to the next rejected element |
| `StrList.RejectedPlaces` | src/strlist.c:129-136 | The tracked indices ascend and are exactly those of the elements that fail the test |
| `StrList.FilterExact` | src/strlist.c:146-153 | The result is the order-preserving filter if and only if every slot past the early stop already equals the element due there |
| `StrList.FilterExactForDistinct` | src/strlist.c:146-153 | For distinct elements it is the filter if and only if at most one element is rejected or the last one is |
| `StrList.SafeFilter` | src/strlist.c:121-155 | It is the filter, equal elements or not, whenever at most one element is rejected or the last one is |
| `StrList.FilterSoundExactly` | src/strlist.c:25-36 | For distinct allocations: after the filter no freed element and no element twice is in the list if and only if at most one element is rejected or the last one is |
| `StrList.FilterLosesLastLine` | src/strlist.c:141-153 | Two comments in front of two lines: the second line is lost and a comment stays, which has been freed |
| `StrList.List.ToArray` | src/strlist.c:207-227 | The first n strings, or all of them when n is 0 or too large |
| `StrBuf.Buffer.Grow` | src/strbuf.c:27-43 | Room for the request appears, the contents and the terminator stay |
| `StrBuf.Buffer.Write` | src/strbuf.c:114-124 | The string is appended and terminated |
| `StrBuf.Buffer.Puts` | src/strbuf.c:126-143 | The string and a newline are appended and terminated |
| `StrBuf.Buffer.PutChar` | src/strbuf.c:103-112 | The character is appended and terminated |
| `StrBuf.Buffer.Detach` | src/strbuf.c:151-160 | A copy of the contents is handed out and the buffer is emptied |
| `StrBuf.StartsWith` | src/strbuf.c:179-190 | True if and only if the second string is a prefix of the first |
| `StrBuf.IsBlankStr` | src/strbuf.c:368-385 | True if and only if every character is white space |
| `StrBuf.StrtouOfDecimal` | src/strbuf.c:319-353 | strtou reads back every unsigned number as it is usually written |
| `StrBuf.StrtouMeans` | src/strbuf.c:319-353 | What strtou makes of white space, a sign, digits and a rest, for every such string |
| `StrBuf.EveryStringSplits` | src/strbuf.c:331 | Every string is of that kind |
| `StrBuf.SignedValueMeans` | src/strbuf.c:331-350 | The values that fit, with their wrap-around behind a minus |
| `StrBuf.SpacesMean` | src/strbuf.c:379 | The white space and the digits, character by character |
| `StrBuf.DecimalDigits` | src/strbuf.c:331 | What one more decimal digit does to a number |
| `RecordFile.FormatRecfileContent` | src/handle-record.c:37-91 | The whole file spelled out: each of the eight keys with its own value or an empty line, in order, and the message below |
| `RecordFile.ReassignRecord` | src/handle-record.c:114-198 | From any lines the record is the one their sections describe: later sections win, unknown keys and empty sections change nothing |
| `RecordFile.FindField` | src/handle-record.c:151-160 | The key table is searched for exactly this line, and each of the eight keys means its own field |
| `RecordFile.OutcomeMeans` | src/handle-record.c:255-302 | A file is accepted if and only if it has lines and the fields of :sitename: and :password: are not blank; when it is refused and when cancelled |
| `RecordFile.CollectBody` | src/handle-record.c:171-184 | The lines up to the next header are gathered; a line marked with a bar loses the bar and keeps its newline |
| `RecordFile.ReadRecordFile` | src/handle-record.c:246-311 | Whether a non-empty file is cancelled, incomplete or complete, and the record when it is complete, as long as a freed line still holds its bytes; an empty file has no defined outcome, as the list is destroyed before it is made |
| `RecordFile.FilterLines` | src/handle-record.c:104-112 | Filtering list elements is filtering their strings, fault included |
| `RecordFile.NewlineMakesItSafe` | src/handle-record.c:276-279 | When the text ends in a newline the reader sees exactly its lines that are neither empty nor comments |
| `RecordFile.SeenExactly` | src/handle-record.c:276-279 | For every text the reader sees exactly these lines if and only if the lines past the early stop equal those due there |
| `RecordFile.FreedLinesExactly` | src/handle-record.c:276-290 | A filter over separately allocated lines leaves no freed line and no line twice if and only if it drops at most one line or the last one |
| `RecordFile.SafeTextExactly` | src/handle-record.c:276-279 | For every text the first filter leaves nothing freed if and only if it drops at most one line, or the text ends in a newline or in a comment |
| `RecordFile.DefinedExactly` | src/handle-record.c:246-311 | Every text is read without touching a freed line if and only if it is not empty, the first filter is safe, and its content is empty, or gives both required fields, or has at most one header, or ends in a header |
| `RecordFile.MissingNewlineCorrupts` | src/handle-record.c:276-286 | Without a newline at the end two comments in front push the value out: a freed comment line is read as the site name |
| `RecordFile.ContentConcat` | src/handle-record.c:276-279 | The content lines of two texts joined by a newline are those of the first and then those of the second |
| `RecordRoundTrip.RoundTrip` | src/handle-record.c:59-195 | Printing and reading gives a record back, with blank fields absent, if and only if each field is blank or one line that begins with none of the characters # : and the bar |
| `RecordRoundTrip.PrintThenRead` | src/handle-record.c:246-311 | For such a record the whole reader accepts it when site name and password are there, cancels exactly the empty one and refuses the others; it touches no freed line if and only if both are there or the last field is blank |
| `RecordRoundTrip.KeysAreDropped` | src/handle-record.c:109-112 | Of the lines of such a record the second filter drops exactly the keys |
| `RecordRoundTrip.PrintedLines` | src/handle-record.c:59-77 | The reader sees exactly the keys and the content lines of the values |
| `RecordRoundTrip.ReadRecordLines` | src/handle-record.c:139-195 | Sections of one line are read one by one into their fields, and the others keep what they had |
| `RecordRoundTrip.ParsedLength` | src/handle-record.c:139-195 | From any lines the reader makes no more text than stands outside the headers |
| `RecordRoundTrip.RecoveredMeansOneLine` | src/handle-record.c:59-195 | A record that comes back had only blank fields and fields of one line that is no comment and no header |
| `RecordRoundTrip.IgnoredLinesDoNotMatter` | src/handle-record.c:104-195 | In a text that ends in a newline, an empty line or a comment put in or taken out at any line start changes neither the lines seen, nor the record, nor the outcome |
| `RecordRoundTrip.CommentLinesVanish` | src/compat.h:86-93 | Any message made of comment and empty lines is invisible to the reader |
| `RecordSections.FileMeans` | src/handle-record.c:139-195 | For any file made of sections: each field gets the text of the last section that has its key and any lines; other keys, empty sections and lines in front of the first key count for nothing |
| `RecordSections.ReadOne` | src/handle-record.c:145-193 | One section of lines with and without bars: a line behind a bar gives its text and a newline, any other its text alone |
| `RecordSections.EscapedLinesAreRead` | src/handle-record.c:174-177 | The escape: any lines, each behind a bar, are read as these lines, each with its newline |
| `RecordSections.EscapedTextIsRead` | src/handle-record.c:246-311 | The same from the text of a file, through split and filter |
| `HexCodec.Hex2Bin` | src/security.c:65-88 | Forward in one buffer, for any characters: the converted bytes stand at its front and no character is overwritten before it is read |
| `HexCodec.Bin2Hex` | src/security.c:90-117 | Backward in one buffer: the upper-case digits of the original bytes and a terminator |
| `HexCodec.DecodeUndoesEncode` | src/security.c:52-117 | Decoding the digits of any bytes gives the bytes |
| `HexCodec.EncodeAfterDecode` | src/security.c:52-117 | Encoding what an even number of digits decodes to gives the digits in upper case |
| `HexCodec.EncodeDenotes` | src/security.c:62-117 | The hexadecimal digits of bytes, first digit highest, denote the same number as the bytes, and all come from 0123456789ABCDEF |
| `HexCodec.DecodeDenotes` | src/security.c:52-88 | The bytes made of digits of either case denote the same number as the digits |
| `HexCodec.DigitsMean` | src/security.c:52-63 | Exactly the characters of the two rows of digits are digits, each worth its place |
| `HexCodec.Bin2Blob` | src/security.c:119-140 | The digits between x' and ', terminated |
| `HexCodec.Blob2Bin` | src/security.c:142-152 | The converted bytes are moved to the front of the blob, whatever it holds |
| `HexCodec.IsHexStr` | src/security.c:154-170 | True if and only if all characters are hexadecimal digits |
| `HexCodec.IsSaltStr` | src/security.c:172-186 | True if and only if all characters are 0 or 1 |
| `HexCodec.IsBlobKey` | src/security.c:188-215 | True if and only if the key has one of the two lengths, the quotes, 64 digits and, in the long form, 32 salt digits |
| `HexCodec.BlobKeyMeans` | src/security.c:188-215 | The accepted keys, spelled out in characters and lengths |
| `HexCodec.BlobIsQuoted` | src/security.c:129-136 | A blob is x, a quote, the digits and a quote |
| `HexCodec.RandomKeyIsBlobKey` | src/command/init.c:224-237 | A key of 32 random bytes is accepted once it is a blob, so it is no passphrase |
| `HexCodec.BlobKeyRoundTrip` | src/security.c:119-215 | blob2bin and then bin2blob turns every accepted key into itself with upper-case digits, which is accepted and then stays as it is |
| `HexCodec.KeyThereAndBack` | src/command/init.c:328-334 | The two conversions in sequence on one buffer, with is_blob_key before and after: an accepted key comes out with upper-case digits and is accepted again, any other buffer is left alone |
| `CipherFrames.Blob.AppendField` | src/cipher-config.c:59-76 | Tag, length and payload are appended, whatever the growth |
| `CipherFrames.SerializeCipherConfig` | src/cipher-config.c:78-130 | The frames of the fields that differ from the defaults, then the key, with 32 spare bytes for the digest |
| `CipherFrames.FrameMeans` | src/cipher-config.c:68-75 | The bytes of a frame: the tag, eight bytes of length with the lowest first, and the payload |
| `CipherFrames.FieldsMean` | src/cipher-config.c:30-47 | Which tag and bytes each value is written under, and against which default |
| `CipherFrames.Deserialize` | src/cipher-config.c:145-224 | For every byte sequence the loop has the outcome of the scan, and when it gets to the end each payload has been stored where the table has the object of its tag |
| `CipherFrames.ScanOfFrames` | src/cipher-config.c:159-221 | Over the frames of any non-empty list of fields whose stores stay inside their objects the loop visits exactly these and stops exactly at the end |
| `CipherFrames.FramesOfScan` | src/cipher-config.c:159-221 | Whatever bytes the loop accepts are the frames of what it visited |
| `CipherFrames.ScanExact` | src/cipher-config.c:59-221 | Both directions at once, over such fields: framing and scanning are inverse |
| `CipherFrames.ToFromBytes` | src/cipher-config.c:71-74 | Every string of n bytes is the n-byte form of the number it stands for |
| `CipherFrames.FromToBytes` | src/cipher-config.c:71-74 | Every number that fits n bytes comes back from its n-byte form |
| `CipherFrames.ReadableExactly` | src/cipher-config.c:88-124 | What reading back a serialised configuration comes to, for every configuration and key: all fields to the last byte exactly when something is written and neither an HMAC algorithm nor a key is; otherwise a store outside an object, an abort or a read past the end |
| `CipherFrames.ScanStopsAt` | src/cipher-config.c:180-206 | After any readable fields, and whatever follows, the loop ends at the first field without a case or without a place to store it |
| `CipherFrames.FirstTagDecides` | src/cipher-config.c:166-206 | The outcome by tag, for any bytes |
| `CipherFrames.BinaryKeysAreForgotten` | src/cipher-config.c:120-124 | No configuration is ever written with the tag of a binary key; a binary key gets the tag of a passphrase |
| `CipherFrames.ValuesComeBackShifted` | src/cipher-config.c:150-193 | Every value that is read back lands one member further: KDF algorithm as HMAC algorithm, compatibility as page size, page size as iteration count, iteration count in the pointer to the key |
| `CipherFrames.NoConfigComesBack` | src/cipher-config.c:78-224 | No configuration that is written and read to the end comes back as it was |
| `LongOption.ResolutionMeans` | src/parse-option.c:340-465 | The first full spelling wins even behind abbreviations; with none, one abbreviation is taken, two or more are ambiguous, and none is unknown; the category is that of the option chosen |
| `LongOption.AbbreviatesExactly` | src/parse-option.c:373-427 | Exactly which arguments abbreviate an option plainly or in its negated form, with which category, and that only a plain one may have a value attached |
| `LongOption.SpellsExactly` | src/parse-option.c:358-442 | Exactly which strings before '=' spell an option in full, which of them negate it, and that the value is what follows '=' |
| `LongOption.NeverFits` | src/parse-option.c:345-349 | Group headings and options without dashes are passed over |
| `LongOption.NegationOutOfReach` | src/parse-option.c:368-442 | A negatable option named "n" cannot be negated in full |
| `LongOption.KeptTwo` | src/parse-option.c:379-383 | At least two options are remembered as abbreviations if and only if two places of the table fit |
| `LongOption.OrderDoesNotMatter` | src/parse-option.c:342-465 | With distinct spellings free of '=', option, category, value and error are the same for every permutation of the table |
| `OptionRun.UnsignedTakesNoNumber` | src/parse-option.c:124-167 | Attached to a long option or a switch, or as the next argument, an unsigned option takes a value if and only if strtou finds no number in it, and stores nothing |
| `OptionRun.UnsignedIsNeverStored` | src/parse-option.c:201-205 | Over whole runs a variable to which only unsigned options point is never written |
| `OptionRun.ParseConserves` | src/parse-option.c:872-938 | In every returning run each argument has one role (operand, option, value of the option before it, end marker, rest) that fits it, and the output is the operands in order and then the rest |
| `OptionRun.RunConserves` | src/parse-option.c:890-926 | The same from any point of a run on |
| `OptionEffects.BareOption` | src/parse-option.c:199-227 | Anywhere in a command line -a or --name of an option adds exactly one store to the run: its default for a switch, one count for a counter, the default string when an optional value is left out |
| `OptionEffects.NegatedOption` | src/parse-option.c:209-223 | --no-name adds exactly one store: 0 for a switch, no string for a string |
| `OptionEffects.ValuedOption` | src/parse-option.c:201-243 | -aVAL, -a VAL, --name=VAL and --name VAL add exactly one store, of VAL as a string or as a path; with realpath the run goes on only if the path is regular; an unsigned option adds none and refuses every number |
| `OptionEffects.RefusedOption` | src/parse-option.c:179-197 | A value given to a negated option or to one that takes none ends the run |
| `OptionEffects.MissingValue` | src/parse-option.c:113-119 | So does a value that is missing at the end |
| `OptionEffects.UnresolvedOption` | src/parse-option.c:446-465 | An unknown long option is an error and an ambiguous one asks for help |
| `OptionEffects.UnknownSwitch` | src/parse-option.c:567-575 | A switch that no option has is an error, but h asks for help unless that is turned off |
| `OptionEffects.HelpIsWanted` | src/parse-option.c:545-597 | --help anywhere, and -h alone, ask for help |
| `OptionEffects.MarkerEndsOptions` | src/parse-option.c:585-592 | Behind -- everything is given back and nothing is stored |
| `OptionEffects.OperandIsKept` | src/parse-option.c:528-543 | An operand is kept, or ends the options, or is an error, as the flags say |
| `OptionEffects.OneShotReadsOne` | src/parse-option.c:522-526 | In one-shot mode the first argument is read as if it stood alone and the rest is given back |
| `OptionEffects.FullNames` | src/parse-option.c:358-442 | The name of an option and the name behind no- resolve to it, alone and with a value, unless an option before it has them |
| `OptionSpellings.ClusterAnywhere` | src/parse-option.c:553-583 | Anywhere in a command line a cluster of switches without arguments equals the separate switches |
| `OptionSpellings.ClusterIsSeparate` | src/parse-option.c:553-583 | The same at the front of any remaining command line |
| `OptionSpellings.AttachedToSwitch` | src/parse-option.c:475-480 | Anywhere in a command line -oVAL equals -o VAL, for an option that needs a value and any VAL that is not empty |
| `OptionSpellings.AttachedToName` | src/parse-option.c:373-442 | Anywhere in a command line --name=VAL equals --name VAL, for any VAL, an option that needs a value, and a name that is spelled in full or abbreviates as below |
| `OptionSpellings.SpellingsAgreeExactly` | src/parse-option.c:373-461 | For a name that may take a value, the two spellings agree on every value and every rest of the command line if and only if the name is spelled in full, abbreviates no negated option, or abbreviates two options plainly |
| `OptionSpellings.ResolveWithValueExactly` | src/parse-option.c:373-461 | The same condition is necessary and sufficient for a name to resolve alike with and without a value, for every table and name |
| `OptionSpellings.HitWithValue` | src/parse-option.c:376-407 | For one option: a value leaves full spellings and plain abbreviations as they are, and a negated abbreviation no longer fits |
| `OptionSpellings.AbbreviationDiffers` | src/parse-option.c:402-407 | A table that fails the condition: --n=V finds the option, --n alone is ambiguous with the negation of another |
| `OptionSpellings.RunAppend` | src/parse-option.c:890-926 | A run over a command line that is read through, followed by more, is the two runs one after the other |
| `OptionSpellings.StepLeavesNothing` | src/parse-option.c:511-616 | No argument leaves a value in the parser for the next one, when options without arguments are declared so |
| `OptionSpellings.EarlierWrites` | src/parse-option.c:559-580 | What a cluster stores before does not influence how the rest of it is read |
| `ParseOptions.ParserContext.GetArgStr` | src/parse-option.c:97-122 | The attached string, or else the next argument, which is then consumed; nothing changes on failure |
| `ParseOptions.ParserContext.GetArg` | src/parse-option.c:169-247 | The stored value, the consumed arguments and the failures, for every kind of option |
| `ParseOptions.ParserContext.FindLong` | src/parse-option.c:340-465 | The loop over the table, with its remembered abbreviation, decides what the resolution says and leaves the right value |
| `ParseOptions.ScanOne` | src/parse-option.c:342-394 | One option that is not spelled in full moves the remembered abbreviation, its category, the ambiguity and the value as it should |
| `ParseOptions.ParserContext.ParseLongOption` | src/parse-option.c:324-466 | A long option is resolved, takes its argument and is validated |
| `ParseOptions.ParserContext.FindShort` | src/parse-option.c:468-487 | The first option with the alias |
| `ParseOptions.ParserContext.ParseCluster` | src/parse-option.c:553-583 | A cluster is read switch by switch; only the last is validated |
| `ParseOptions.ParserContext.ParseOptionNext` | src/parse-option.c:511-616 | One argument: what is stored and consumed, and that only a kept operand is written, at the write index, which never passes the read index |
| `ParseOptions.TurnInPlace` | src/parse-option.c:541-542 | Writing an operand at the write index disturbs no argument that is still to be read |
| `ParseOptions.ParseOptions` | src/parse-option.c:872-938 | The whole in-place parser has the outcome, output and stored values of the run as a function |
| `AtexitChain.Chain.Push` | src/atexit-chain.c:33-43 | The handler becomes the head of the list |
| `AtexitChain.Chain.Pop` | src/atexit-chain.c:45-62 | The head is unlinked and returned; nothing on an empty list |
| `AtexitChain.Chain.Apply` | src/atexit-chain.c:64-72 | Every handler runs once, last pushed first, the chain ends empty, and their files are gone |
| `Commands.AvailFilePath` | src/command/init.c:61-77 | An existing file stops the run, or is removed under --force; success means the path is free |
| `Commands.CheckCipherOptions` | src/command/init.c:238-307 | Exactly when the cipher options are accepted, and when they ask for a config |
| `Commands.IsPower2Means` | src/helper.h:44-45 | What the page sizes out of range must not be: a power of two |
| `Commands.SetUpEncryption` | src/command/init.c:214-340 | The cipher config is only ever created while its handler is on the chain; success leaves the handler there exactly when the file was written |
| `Commands.CmdInit` | src/command/init.c:166-379 | Whenever the command gives up, the chain covers every file this run created, and without --force taking those away gives the old files back; success leaves an empty chain |
| `Commands.RunInit` | src/command/init.c:166-379 | After failure no file of this run is left and, without --force, the files are as before; success keeps exactly database and config and runs no handler. The config is written if and only if encryption is on and an option or the kind of key asks for it, clause by clause: in particular with --remember, and for a blob key without --no-remember |
| `Commands.CmdCreate` | src/command/create.c:112-319 | The handlers on the chain at every exit, the one in the option parser included, and that the database and the config are never touched |
| `Commands.RunCreate` | src/command/create.c:112-319 | Once the editor is set up the temporary record file is gone after every exit; the journal is gone after every failure of the insertion, and after success if SQLite has removed it; nothing else changes |

## Left out

- Command modes: `verify_cmdmode` never meets the end of its list (src/parse-option.c:264-301).
- What happens after an undefined step: a lone `-` against a table with an option without alias reads past its end, which
  is the outcome `Undefined` (src/parse-option.c:554-557); a cipher file that ends inside a frame is `Overrun`, and a store
  outside its object `WildStore`; the list that an empty record file destroys is `Undefined`.
- The bytes behind the strings that `deserialize_cipher_config` allocates: it does not terminate them.
- `stat` is a function of the stored path, so it answers alike within one run.
- strtou: an unsigned long has 64 bits, and the locale is C. A value out of range makes strtou fail, so the inverted test
  lets it through like any other string that is no number.
- Help and error texts, and therefore the wording of `COMMON_RECORD_MESSAGE`: any message of comment lines is covered.
- Memory: ownership apart from the filter's fault, key wiping, and aliasing of strings.
- Terminators: strings are sequences without NUL, and argv is an array without its final NULL. Characters stand for
  bytes.
- EditDistance.LevenshteinW: computes over unbounded integers; `NoIntOverflow` gives the range in which int agrees.
- EditDistance.NoIntOverflow: for non-negative weights only; with negative ones the bounds below do not hold.
- Suggestion.GetApproximateCommand: requires inputs whose scores fit int, beyond which the arithmetic of the source is
  undefined, and a non-empty table, which the program always has.
- MergeSort.Sort: requires at least one element, because the size computation divides by zero otherwise (src/helper.h:73).
- StrList.List.Split: grows without the limits of size_t; `Growth` says when the source ends the process instead. The
  same holds for every other member that grows an array.
- StrList.List.Filter: on an empty list the source declares an array of length 0, which C leaves undefined.
- StrList.List.Join: covers lists of at least one element and a non-empty separator.
- HexCodec.Hex2Bin: a character below '0' gives a negative digit, whose left shift is taken as a multiplication, as
  compilers do; the one caller hands over keys that were checked (src/command/init.c:332).
- CipherFrames.SerializeCipherConfig: size_t and pointers are taken as 64 bits, little-endian, and unsigned as 32 bits.
- RecordFile.ReadRecordFile: a freed line is read as if it still held its bytes; `ReadIsDefined` excludes that. Opening,
  seeking and reading the file succeed; their failures end the process.
- Commands.RunInit: calls into SQLite, OpenSSL, the terminal and the file system fail or succeed as they like; that
  handlers succeed in removing an existing file is assumed. A process that is killed runs no handler.
- Commands.RunCreate: whether SQLite has removed its journal once the database is closed is a parameter, on which the
  source relies.
- The other commands, `makekey`, the precheck, file and process plumbing, and help printing.
