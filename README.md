# threadpool_sample in Dafny

A model of the thread pool in `threadpool.c`/`threadpool.h` and of the
header-only utilities it ships with:

- the C-string helpers and the growable string buffer `cstrbuf` of `cstrbuf.h`;
- the calendar, time-zone, sleep and elapsed-time helpers of `misc.h` and
  `timeut.h`;
- the path helpers of `misc.h`;
- the size and pointer helpers of `memapi.h`;
- the configuration clamp and the checked `snprintf` of `unitypes.h`.

The pool keeps a fixed ring of task slots. `threadpool_add` stores a task at
`tail`, and each worker in `threadpool_run` takes the task at `head`. Every
critical section is one atomic method of the class `ThreadPool.Pool`. Each of
these methods is proved to have the effect of a pure function of
`TaskQueue` on the pool's state, and the queue's properties are proved about
those functions:

- tasks come out in the order they went in (`RunIsFifo`);
- shutdown is final;
- a full queue refuses a task and leaves the queue unchanged.

C strings are `seq<char>` without NUL (`CTypes.CStr`). NULL pointers are
`Option`. Functions that edit a string in place work on an `array<char>`
holding a NUL. The `cstrbuf` type is the class `CStrBuffer.CStrBuf`.
`size_t` and `long` are taken to be 64 bits wide (LP64), and `ub4` is 32
bits. Time is an input (`now`, `t`), and so are the number of online CPUs
and the raw return value of `vsnprintf`.

`cstr_isnumeric` accepts a lone sign or a lone dot (`"+"`, `"."`): its loop
only rejects a second dot, a sign that is not first, and a character that is
neither a digit nor a dot. `CStrText.LoneSignOrDotAccepted` states this
behaviour.

## Model

| member | source | states |
|---|---|---|
| PoolTypes.Code | src/threadpool.h:130-140 | each error has its fixed value between -7 and 0, and only success is 0 |
| PoolTypes.FromCode | src/threadpool.h:130-140 | exactly the codes -7..0 name an error, and decoding inverts `Code` |
| PoolTypes.CodeInjective | src/threadpool.h:130-140 | no two errors share a code |
| PoolTypes.MessageOf | src/threadpool.h:143-153 | each error code indexes a non-empty message, the error's own name |
| PoolTypes.DefaultsWithinLimits | src/threadpool.h:55-80 | the default thread and queue counts are positive and within their maxima |
| TaskQueue.Wrap | src/threadpool.c:277-278 | a ring index past the end wraps to the same slot modulo the size |
| TaskQueue.Next | src/threadpool.c:438-439 | advancing an index is adding one modulo the ring size |
| TaskQueue.Stored | src/threadpool.c:294-311 | the stored slot holds the function, argument and flags; its inline area starts with the first `arg_size` bytes of the task argument and keeps the rest; a non-positive size records 0 |
| TaskQueue.Add | src/threadpool.c:260-330 | a NULL function is invalid, then arg overflow, shutdown and a full queue are reported in that order and change nothing; success iff none applies, and then the task is appended at the tail |
| TaskQueue.AddPending | src/threadpool.c:294-316 | writing at the tail and advancing it appends exactly the new task to the pending sequence |
| TaskQueue.Take | src/threadpool.c:425-442 | in shutdown a worker takes nothing and the state is unchanged; otherwise it takes the oldest pending task and removes exactly that one |
| TaskQueue.TakePending | src/threadpool.c:434-442 | advancing the head drops exactly the first pending task |
| TaskQueue.Destroy | src/threadpool.c:349-394 | destroy sets shutdown and succeeds iff the pool was not already shutting down; the slots and indices are untouched |
| TaskQueue.WellFormedTail | src/threadpool.c:260-330 | a valid request sequence stays valid after its first request |
| TaskQueue.Step | src/threadpool.c:260-458 | one add or worker step keeps the ring invariant, and pending plus accepted equals delivered plus the new pending; after shutdown nothing changes |
| TaskQueue.Run | src/threadpool.c:260-458 | any sequence of adds and worker steps keeps the ring invariant and the argument capacity |
| TaskQueue.RunIsFifo | src/threadpool.c:260-458 | over any run, tasks are delivered in exactly the order they were accepted: old pending plus accepted equals delivered plus still pending |
| TaskQueue.ShutdownIsFinal | src/threadpool.c:282-285 | once shut down, no add is accepted and no task is delivered, whatever follows |
| TaskQueue.SubmissionsFillQueue | src/threadpool.c:277-316 | while there is room and no worker runs, every admissible add is accepted and the count grows by one each |
| TaskQueue.FullQueueRefuses | src/threadpool.c:287-291 | an add to a full queue returns `threadpool_queue_full` and leaves the queue as it was |
| ThreadPool.CreateConfig | src/threadpool.c:143-162 | creation is refused iff a count is negative or too large or the argument size is `(size_t)-1` or too large; a zero count selects the default |
| ThreadPool.Pool.Init | src/threadpool.c:173-180 | the new pool has the configured sizes, an empty ring, no shutdown and no worker started |
| ThreadPool.Pool.Create | src/threadpool.c:131-258 | NULL iff the arguments are refused; otherwise every context `i` has id `i+1`, its thread argument and, when affinity is asked for, its CPU set, and all workers are started |
| ThreadPool.Pool.GetContext | src/threadpool.c:116-119 | the context returned for a 1-based id carries that id |
| ThreadPool.Pool.Add | src/threadpool.c:260-330 | NULL pool is invalid; otherwise the new pool state and the error are what `TaskQueue.Add` gives |
| ThreadPool.Pool.UnusedQueues | src/threadpool.c:333-340 | `threadpool_invalid` for NULL or shutdown, otherwise the free slots, which with the pending tasks make up the queue size |
| ThreadPool.Pool.ThreadsCount | src/threadpool.c:343-346 | 0 exactly for NULL, otherwise the number of worker contexts |
| ThreadPool.Pool.Destroy | src/threadpool.c:349-394 | NULL is invalid; otherwise the effect is `TaskQueue.Destroy`, and after a successful destroy no worker is left |
| ThreadPool.Pool.RunOnce | src/threadpool.c:413-458 | one worker pass has the effect of `TaskQueue.Take`; a taken task goes into that worker's context only; leaving on shutdown decrements `started` |
| Affinity.Width | src/threadpool.c:521-525 | -1 or a value above `POOL_CPU_ID_MAX` means 256 CPUs per group; other values are kept |
| Affinity.Groups | src/threadpool.c:527-533 | the number of groups is the online CPUs divided by the width, and at least 1 |
| Affinity.SetAffinityCpus | src/threadpool.c:509-544 | the set built is `CpuSet` of the thread, and the online count is returned |
| Affinity.GroupCpusSize | src/threadpool.c:539-541 | a group of width `w` has exactly `w` CPUs |
| Affinity.RangeSize | src/threadpool.c:539-541 | the ids from `lo` below `lo+k` number `k` |
| Affinity.PinnedToOnlineCpus | src/threadpool.c:509-544 | with a width between 1 and the online count, a thread gets exactly `width` CPUs, all of them online |
| Affinity.GroupsDisjoint | src/threadpool.c:539-541 | two different groups share no CPU |
| Affinity.NonPositiveWidthPinsNothing | src/threadpool.c:527-541 | a width of 0 or below -1 pins the thread to no CPU |
| Affinity.EightCpusInPairs | src/threadpool.c:509-544 | on 8 CPUs in pairs, thread 5 gets CPUs 2 and 3 |
| CTypes.StrLen | src/cstrbuf.h:58 | `strlen` is the index of the first NUL |
| CStrTrim.LtrimChr | src/cstrbuf.h:130-138 | the returned start skips exactly the leading run of `ch` |
| CStrTrim.TrailingCut | src/cstrbuf.h:141-168 | the cut leaves a string not ending in `ch`, and only `ch` was cut |
| CStrTrim.ScanLastKept | src/cstrbuf.h:144-153 | the scan stops at the NUL and leaves `q` at the last character that is not `ch`, or at the start |
| CStrTrim.RtrimChr | src/cstrbuf.h:141-168 | as written: NUL is written at the cut of `RtrimChrCut`, which keeps the first character even when every character is `ch` |
| CStrTrim.ScanTrailingCut | src/cstrbuf.h:144-153 | corrected scan: the length up to and including the last character that is not `ch` |
| CStrTrim.RtrimChrAll | src/cstrbuf.h:141-168 | corrected: NUL is written at the cut of `TrailingCut`, so every trailing `ch` goes |
| CStrTrim.RtrimChrKeepsOne | src/cstrbuf.h:141-168 | on `"aa"` with `'a'` the code as written leaves `"a"`, while the complete trim leaves `""` |
| CStrTrim.TrailingCutIsTrim | src/cstrbuf.h:141-168 | a string is its trimmed part followed by only `ch`, and the trimmed part does not end in `ch` |
| CStrTrim.LRtrimChr | src/cstrbuf.h:171 | trimming both sides gives the string without its leading and trailing runs of `ch` |
| CStrTrim.LtrimmedCutIsExact | src/cstrbuf.h:171 | after a left trim, the right trim as written cuts every trailing `ch` |
| CStrTrim.LfindChr | src/cstrbuf.h:174-189 | the first index of `c` within `len` characters, or none when there is none, when `len <= 0` or the string is NULL |
| CStrTrim.RfindChr | src/cstrbuf.h:192-207 | the last index of `c` within `len` characters, or none when there is none |
| CStrTrim.LtrimWhitespace | src/cstrbuf.h:245-252 | the start skips exactly the leading whitespace; NULL stays NULL |
| CStrTrim.RtrimWhitespace | src/cstrbuf.h:255-266 | every trailing whitespace character becomes NUL, nothing else changes, and the new length is where they started; a non-positive length is returned with the buffer unchanged |
| CStrTrim.RtrimResult | src/cstrbuf.h:255-266 | after the right trim, the C string at the same place is the old one without its trailing whitespace |
| CStrTrim.LeadingBlanks | src/cstrbuf.h:245-252 | the count of leading whitespace characters |
| CStrTrim.TrailingBlankCut | src/cstrbuf.h:255-266 | the length without trailing whitespace |
| CStrTrim.LeadingBlanksUnique | src/cstrbuf.h:245-252 | any index with only whitespace before it and none at it is the leading-blank count |
| CStrTrim.TrailingBlankCutUnique | src/cstrbuf.h:255-266 | any cut with only whitespace after it and none just before it is the trailing cut |
| CStrTrim.TrimWhitespaceIdempotent | src/cstrbuf.h:269-275 | a trimmed string neither starts nor ends with whitespace, and trimming again changes nothing |
| CStrTrim.LRtrimResult | src/cstrbuf.h:269-275 | after both trims, the C string at the returned start is `TrimWhitespace` of the original, and the buffer is `LRtrimmedBuffer` of the old one |
| CStrTrim.LRtrimWhitespace | src/cstrbuf.h:269-275 | the returned start is past exactly the leading whitespace, the string there is the input without leading and trailing whitespace, and the whole new buffer is the old one with only the trailing whitespace of that string turned into NULs |
| CStrTrim.ShrinkWhitespace | src/cstrbuf.h:278-299 | `start` moves past the leading and `end` back over the trailing whitespace of the range, and the length returned is `end - start + 1` |
| CStrTrim.ReplacedChr | src/cstrbuf.h:309-320 | each `ch` becomes `rpl` and every other character stays |
| CStrTrim.ReplaceChr | src/cstrbuf.h:309-320 | in place, the string up to its NUL becomes `ReplacedChr`; NULL is left alone |
| CStrTrim.ReplacedChrEffect | src/cstrbuf.h:309-320 | with no `ch` nothing changes, and with `ch != rpl` no `ch` is left |
| CStrCompare.Fold | src/cstrbuf.h:785-847 | case folding maps NUL and only NUL to NUL |
| CStrCompare.StrNCmp | src/cstrbuf.h:785-847 | the `strncmp`/`strncasecmp` sign is -1, 0 or 1 |
| CStrCompare.StrNCmpAntisymmetric | src/cstrbuf.h:785-847 | swapping the operands negates the comparison |
| CStrCompare.StrNCmpZeroIffPrefixesEqual | src/cstrbuf.h:785-847 | a case-sensitive comparison of `n` characters is 0 iff the `n`-character prefixes are equal |
| CStrCompare.StrCmpZeroIffEqual | src/cstrbuf.h:785-847 | `strcmp` is 0 iff the strings are equal |
| CStrCompare.StrNCmpLessIff | src/cstrbuf.h:785-847 | the comparison of `n` characters is -1 iff the first folded character that differs within `n` is smaller in A, every earlier one being equal and not the end of A |
| CStrCompare.StrNCmpGreaterIff | src/cstrbuf.h:785-847 | the comparison is 1 iff the first folded character that differs within `n` is greater in A |
| CStrCompare.StrNCmpZeroIffFoldedEqual | src/cstrbuf.h:785-847 | with or without case folding, the comparison is 0 iff the folded `n`-character prefixes are equal |
| CStrCompare.CompareLen | src/cstrbuf.h:785-847 | the same pointer (or two NULLs) is equal whatever the lengths; NULL sorts first; two empty strings are equal; otherwise the shorter length is the lesser |
| CStrCompare.CompareLenAntisymmetric | src/cstrbuf.h:785-847 | `cstr_compare_len` is antisymmetric for every pair of arguments |
| CStrCompare.CompareLenOrder | src/cstrbuf.h:785-847 | for equal lengths or two negative ones, -1, 1 and 0 mean: the first differing folded character is smaller in A, is greater in A, or there is none (the folded prefixes, or the whole folded strings, are equal) |
| CStrCompare.CompareLenSamePointer | src/cstrbuf.h:785-847 | over equal lengths the pointer test gives the answer the contents give; over different lengths the contents would give -1 |
| CStrCompare.CompareLenSamePointerExample | src/cstrbuf.h:785-790 | one pointer compared as 3 and 5 characters is 0, two copies are -1 |
| CStrCompare.CompareWholeStrings | src/cstrbuf.h:785-847 | with both lengths -1 the comparison is 0 iff the two strings (or NULLs) are equal |
| CStrCompare.NotEqualLen | src/cstrbuf.h:749-767 | different lengths, or one NULL and one not, are unequal; two NULLs of one length are not |
| CStrCompare.NotEqualLenReflexive | src/cstrbuf.h:749-767 | a string over one length is never unequal to itself, the answer of the pointer test |
| CStrCompare.NotEqualAgreesWithCompare | src/cstrbuf.h:749-767 | with equal lengths, `cstr_notequal_len` is true iff `cstr_compare_len` is non-zero |
| CStrCompare.StartWith | src/cstrbuf.h:856-869 | the same pointer (or two NULLs) matches, one NULL does not, otherwise the first `startlen` bytes are compared when `startlen` is within `count` |
| CStrCompare.StartWithMeaning | src/cstrbuf.h:850-869 | `cstr_startwith` over a whole prefix is the prefix test |
| CStrCompare.StartWithExamples | src/cstrbuf.h:850-869 | "HelloWorld" starts with "Hello" but not "World" nor "hello" |
| CStrCompare.EndWith | src/cstrbuf.h:873-886 | the same pointer (or two NULLs) matches, one NULL does not, and for two pointers a suffix longer than the count never matches |
| CStrCompare.EndWithSamePointerExample | src/cstrbuf.h:873-886 | "abc" given as its own 1-character suffix matches through the pointer test, although its contents would not |
| CStrCompare.EndWithMeaning | src/cstrbuf.h:872-886 | `cstr_endwith` is true iff the last `endlen` of the first `count` characters equal the suffix |
| CStrText.LengthBounded | src/cstrbuf.h:58 | `cstr_length` with -1 is the whole string, otherwise at most `len` characters |
| CStrText.IsNumeric | src/cstrbuf.h:441-485 | NULL is not numeric; otherwise the result is `IsNumericText` of the string, and the whole new buffer is the old one with only the string's trailing whitespace turned into NULs |
| CStrText.CheckTrimmed | src/cstrbuf.h:459-485 | the checks on the trimmed string bounded by `len` accept exactly `NumericText` |
| CStrText.CheckNumeric | src/cstrbuf.h:455-485 | the scan accepts exactly the texts of `NumericText`: 1 to 40 characters, an optional sign first, then digits with at most one dot |
| CStrText.DotsAppend | src/cstrbuf.h:455-485 | the dots of a concatenation add up |
| CStrText.NumericForm | src/cstrbuf.h:441-485 | an optional sign and a non-empty body of digits and dots, at most 40 characters, is numeric iff the body holds at most one dot |
| CStrText.UntrimmedCheck | src/cstrbuf.h:455-485 | a string without outer whitespace is checked as it is |
| CStrText.IsNumericDigits | src/cstrbuf.h:441-485 | "8897391" is numeric |
| CStrText.IsNumericSignedDecimal | src/cstrbuf.h:441-485 | "+123456.123" is numeric |
| CStrText.IsNumericEmpty | src/cstrbuf.h:441-485 | the empty string is not numeric |
| CStrText.IsNumericTwoDots | src/cstrbuf.h:441-485 | "12.56.89" is not numeric |
| CStrText.IsNumericSpaceAfterSign | src/cstrbuf.h:441-485 | "+ 1234.556" is not numeric |
| CStrText.TrimBlankPadding | src/cstrbuf.h:269-275 | blanks around a string with no blank at either end are exactly what trimming removes |
| CStrText.IsNumericLeadingBlanks | src/cstrbuf.h:441-485 | "   123.456" is numeric |
| CStrText.IsNumericTrailingBlanks | src/cstrbuf.h:441-485 | "-100  " is numeric |
| CStrText.IsNumericOnlyBlanks | src/cstrbuf.h:441-485 | "   " is not numeric |
| CStrText.IsNumericInnerBlank | src/cstrbuf.h:441-485 | "189 0931" is not numeric |
| CStrText.LoneSignOrDotAccepted | src/cstrbuf.h:455-485 | a lone "+" or "." is accepted |
| CStrText.IsDigits | src/cstrbuf.h:990-1000 | true iff each of the first `len` characters is a digit |
| CStrText.SafeCopied | src/cstrbuf.h:1003-1029 | returns 1 iff the copy and its NUL fit, and then writes exactly them; otherwise, when the offset is inside the buffer, the part that fits and "..." before the last byte when the buffer exceeds 3 bytes; with the offset outside, nothing but the last byte changes; in both cases a NUL last and 0; bytes past the buffer are never touched |
| CStrText.SafeCopyReadsBack | src/cstrbuf.h:1003-1029 | after a complete copy the string at the offset reads back as the source |
| CStrText.SafeCopy | src/cstrbuf.h:1003-1029 | the array result and return value are those of `SafeCopied` |
| CStrText.Truncated | src/cstrbuf.h:1014-1023 | with the offset inside the buffer: the part that fits from the offset, "..." over the three bytes before the last when the buffer exceeds 3 bytes, a NUL last, bytes past the buffer untouched |
| CStrText.CopyTruncated | src/cstrbuf.h:1014-1026 | the partial copy leaves the array as `Truncated` describes |
| CStrText.FindFromIsFirst | src/cstrbuf.h:389-438 | `strstr` from a position finds a match and no earlier one, or reports that there is none |
| CStrText.ReplaceAllLength | src/cstrbuf.h:389-438 | the result length is the original plus each occurrence's length difference |
| CStrText.ReplaceBySelf | src/cstrbuf.h:389-438 | replacing a pattern by itself gives the original |
| CStrText.NoOccurrenceNoChange | src/cstrbuf.h:389-438 | no occurrence iff the search fails, and then nothing changes |
| CStrText.DashesFound | src/cstrbuf.h:389-438 | the search finds the dashes of "a-b-c" in turn, then nothing |
| CStrText.ReplaceExample | src/cstrbuf.h:389-438 | "a-b-c" has 2 dashes, and doubling them gives "a--b--c" |
| CStrText.ReplaceNew | src/cstrbuf.h:389-438 | no result and length 0 iff the pattern does not occur; otherwise the result replaces every non-overlapping occurrence from the left, and its length is returned |
| CStrText.CountOccurrences | src/cstrbuf.h:403-406 | the counting loop counts the non-overlapping occurrences |
| CStrText.BuildReplaced | src/cstrbuf.h:418-431 | the copying loop builds the replaced string |
| CStrText.ReplaceOne | src/cstrbuf.h:418-431 | one pass appends the text before the occurrence and the replacement, moves past the pattern, and keeps the built text a prefix of the replaced string |
| CStrText.Fields | src/cstrbuf.h:323-342 | splitting at the delimiter gives at least one field |
| CStrText.FieldsCount | src/cstrbuf.h:323-342 | the number of fields is one more than the number of delimiters |
| CStrText.FindChar | src/cstrbuf.h:333 | `strchr` from a position finds the first `c`, and when it finds none before a bound there is none there |
| CStrText.CountFields | src/cstrbuf.h:323-342 | with no output array, the count is 1 for NULL, otherwise one more than the delimiters among the first `len` characters, which is the number of fields |
| CStrDate.LeapRule | src/cstrbuf.h:1070 | a leap year is divisible by 4, and by 400 if it is by 100 |
| CStrDate.LeapExamples | src/cstrbuf.h:1070 | 2000 and 2024 are leap years, 1900 and 2023 are not |
| CStrDate.DaysInMonth | src/cstrbuf.h:1153-1172 | months have 28 to 31 days, and 29 exactly for February of a leap year |
| CStrDate.TimeIsValid | src/cstrbuf.h:1153-1172 | a valid time has its year, month, day, hour, minute and second in range |
| CStrDate.TimeIsValidIffCalendarDate | src/cstrbuf.h:1153-1172 | valid iff the fields are in range and the day exists in that month of that year |
| CStrDate.LeapDayValidIffLeapYear | src/cstrbuf.h:1153-1172 | February 29 is valid iff the year is a leap year |
| CStrDate.TzSign | src/cstrbuf.h:1175-1209 | '+' and 'E' are east, '-' and 'W' west, anything else is no sign |
| CStrDate.TwoDigits | src/cstrbuf.h:1175-1209 | two digits read as a value from 0 to 99 |
| CStrDate.ParseTimezone | src/cstrbuf.h:1175-1209 | as written: a non-error result comes from a well-formed text, is signed `hh*100 + mm`, and lies within ±2359 |
| CStrDate.FormatTimezone | src/cstrbuf.h:1175-1209 | a formatted time zone has the accepted shape |
| CStrDate.ParseFormatRoundTrip | src/cstrbuf.h:1175-1209 | parsing a formatted offset gives back the signed `hh*100 + mm` |
| CStrDate.MinuteWestCollidesWithError | src/cstrbuf.h:1175-1209 | "-00:01" parses to -1, the same value as the error for "UTC" |
| CStrDate.ParseTimezoneChecked | src/cstrbuf.h:1175-1209 | corrected: the error is a separate `None`, exactly for malformed text |
| CStrDate.ParseCheckedRoundTrip | src/cstrbuf.h:1175-1209 | the checked parser inverts the formatter, including "-00:01", and agrees with the original whenever the original does not return -1 |
| CStrBuffer.AlignSize | src/cstrbuf.h:1547 | the size is a multiple of 16 and, without 32-bit overflow, above the length by at most 16 |
| CStrBuffer.AlignSizeWraps | src/cstrbuf.h:1547 | near the top of `ub4` the aligned size wraps to 0 |
| CStrBuffer.NewLength | src/cstrbuf.h:1586-1620 | an explicit length is kept; an error length means the string's own length, capped, or 0 for NULL |
| CStrBuffer.NewSize | src/cstrbuf.h:1586-1620 | with `maxsz == 0` the size is exact; otherwise it is aligned to 16 and exceeds the length |
| CStrBuffer.NewSizeExceedsLength | src/cstrbuf.h:1586-1620 | below the buffer limit, the size allocated always leaves room for the terminator |
| CStrBuffer.CStrBuf.Init | src/cstrbuf.h:1586-1620 | the new buffer holds the content, NUL-terminated and zero-filled to its size |
| CStrBuffer.CStrBuf.New | src/cstrbuf.h:1586-1620 | a fresh terminated buffer whose contents are the first `NewLength` characters |
| CStrBuffer.CStrBuf.CharAtSafe | src/cstrbuf.h:1573-1583 | a position is given exactly when the buffer is not NULL and the index is within its length |
| CStrBuffer.CStrBuf.Trunc | src/cstrbuf.h:1729-1737 | a shorter length cuts the contents and writes one NUL; a longer one changes nothing |
| CStrBuffer.CStrBuf.Write | src/cstrbuf.h:1648-1726 | the bytes are copied at the offset and nothing else changes |
| CStrBuffer.CStrBuf.Cat | src/cstrbuf.h:1648-1726 | the contents become the old contents followed by the appended text, terminated; NULL gives a new buffer |
| CStrBuffer.CStrBuf.Grow | src/cstrbuf.h:1702-1709 | the buffer gets a new array of the requested size holding the same contents |
| CStrBuffer.CStrBuf.AppendInPlace | src/cstrbuf.h:1698-1701 | the text and a NUL are written at the end of the contents, which grow by the text |
| CStrBuffer.CStrBuf.PushBack | src/cstrbuf.h:1808-1821 | as written: the character is appended, but in place the byte after it is left as it was |
| CStrBuffer.CStrBuf.PushBackTerminated | src/cstrbuf.h:1808-1821 | corrected: the character is appended and the buffer stays terminated |
| CStrBuffer.CStrBuf.Dup | src/cstrbuf.h:1758-1785 | the contents become the source's first `NewLength` characters, in the same buffer when it is large enough, otherwise in a new one |
| CStrBuffer.CStrBuf.Sub | src/cstrbuf.h:1788-1805 | a new buffer with `length` characters from `startindex` replaced by the first `sublen` of `substr` |
| CStrBuffer.CStrBuf.Splice | src/cstrbuf.h:1796-1797 | the replacement and then the tail are copied right after the head |
| CStrBuffer.PushBackLeavesStaleByte | src/cstrbuf.h:1808-1821 | "abcdef" truncated to "ab" then pushed 'x' leaves the stale 'd' where the NUL should be |
| CStrBuffer.PushBackTerminatedScenario | src/cstrbuf.h:1808-1821 | the corrected push on the same buffer gives "abx" followed by NUL |
| LocalTime.YearDays | src/timeut.h:280 | a year has 366 days iff it is a leap year, otherwise 365 |
| LocalTime.MonthTable | src/timeut.h:250-251 | the month table has twelve entries |
| LocalTime.MonthTableDays | src/timeut.h:250-251 | each entry is that month's number of days |
| LocalTime.MonthsFillYear | src/timeut.h:250-251 | the twelve months add up to the year |
| LocalTime.TimeOfDay | src/timeut.h:259-268 | hours, minutes and seconds of the day rebuild the time of day |
| LocalTime.WalkYears | src/timeut.h:275-285 | the year loop leaves the year and the day within it, which add back to the day count |
| LocalTime.WalkMonths | src/timeut.h:287-304 | the month loop leaves a month and a day that exist and add back to the day of the year |
| LocalTime.GetLocalTimeSafe | src/timeut.h:232-313 | for a time at or after 1970 in local time, the fields are the calendar date and time of day of that instant; the dst flag is copied |
| LocalTime.BrokenDownOfWalk | src/timeut.h:259-313 | the fields computed from a non-negative time and its year and month walks are its broken-down form |
| LocalTime.DaysBeforeGrows | src/timeut.h:275-285 | later years start later |
| LocalTime.DaysBeforeMonthGrows | src/timeut.h:287-304 | later months start later |
| LocalTime.TimeOfDayUnique | src/timeut.h:259-268 | hours, minutes and seconds are determined by the seconds of the day |
| LocalTime.BrokenDownUnique | src/timeut.h:232-313 | an instant has only one broken-down time |
| LocalTime.Pad2 | src/timeut.h:135-148 | a number below 100 is written as two digits |
| LocalTime.TzText | src/timeut.h:135-148 | the text has five characters and is signed '-' exactly for a positive `tz`, a zone west of UTC |
| LocalTime.TimezoneFormat | src/timeut.h:135-148 | the buffer receives the text and a NUL, and nothing past them changes |
| LocalTime.TzTextRoundTrip | src/timeut.h:135-148 | the text's hours and minutes give back the offset in minutes east of UTC |
| TimeUtil.SleepMsecSpan | src/timeut.h:103-130 | a positive millisecond count becomes a normal timespec of the same length; others sleep not at all |
| TimeUtil.SleepUsecSpan | src/timeut.h:103-130 | the same for microseconds |
| TimeUtil.NormalSpanUnique | src/timeut.h:103-130 | a normal timespec is determined by its length |
| TimeUtil.SleepUnitsAgree | src/timeut.h:103-130 | sleeping `ms` milliseconds is sleeping `1000*ms` microseconds |
| TimeUtil.U64 | src/timeut.h:316-354 | the conversion to `ub8` lands in range |
| TimeUtil.S64 | src/timeut.h:316-354 | the conversion back to `sb8` lands in range |
| TimeUtil.SignedRoundTrip | src/timeut.h:316-354 | converting an `sb8` to `ub8` and back is the identity |
| TimeUtil.UnsignedMillis | src/timeut.h:316-354 | the unsigned expression equals the signed milliseconds whenever the nanoseconds are not negative and the result fits in `sb8` |
| TimeUtil.UnsignedMillisExact | src/timeut.h:316-354 | when the signed sum fits in `sb8`, the unsigned wrap-around and the signed reading give it back |
| TimeUtil.DiffTimeMsec | src/timeut.h:316-354 | as written: in `sb8` range; the true difference in milliseconds when the seconds difference is positive, or zero with a non-negative nanosecond part |
| TimeUtil.SingleArgumentFromZero | src/timeut.h:316-354 | a single timespec is measured from zero, whichever argument it is |
| TimeUtil.NegativeHalfSecondAsWritten | src/timeut.h:316-354 | from (5 s, 0.5e9 ns) to (5 s, 0) the code gives 18446744073209, not -500 |
| TimeUtil.NegativeSpanAsWritten | src/timeut.h:316-354 | from (5 s, 0.5e9 ns) to (4 s, 0) it gives 18446744072209, not -1500 |
| TimeUtil.DiffTimeMsecSigned | src/timeut.h:316-354 | corrected: the true difference in milliseconds, truncated toward zero, for any normal pair |
| TimeUtil.SignedDiffAgrees | src/timeut.h:316-354 | the corrected version gives -500 on the example and agrees with the original whenever the later time is a whole second or more ahead |
| Paths.EndWithWhole | src/cstrbuf.h:872-886 | `cstr_endwith` over whole strings is the suffix test |
| Paths.ConfigPathFile | src/misc.h:750-766 | a path ending in the separator and the name is kept; one ending in a separator gets the name; any other gets the separator and the name |
| Paths.ConfigPathEndsWithName | src/misc.h:750-766 | the result always ends in a separator followed by the name |
| Paths.ConfigPathIdempotent | src/misc.h:750-766 | completing a completed path changes nothing |
| Paths.ConfigPathExamples | src/misc.h:750-766 | "/etc", "/etc/" and "/etc/app.cfg" all give "/etc/app.cfg" |
| Paths.LastIndexOf | src/misc.h:719-737 | `strrchr` finds the last occurrence, or none iff the character is absent |
| Paths.CutPoint | src/misc.h:719-737 | the cut is the last `\` or `/`, and no separator follows it |
| Paths.CutSplitsPath | src/misc.h:719-737 | the path is its directory, a separator and a last part without separators |
| Paths.StrNLen | src/misc.h:719-737 | `strnlen` is the index of the first NUL within the bound, or the bound |
| Paths.CutAtLastSeparator | src/misc.h:719-737 | the buffer is cut to the directory part before the last separator |
| MemApi.AlignBsize | src/memapi.h:94-95 | the smallest multiple of the alignment at or above the size |
| MemApi.AlignBsizeLeast | src/memapi.h:94-95 | no multiple of the alignment lies between the size and its aligned size |
| MemApi.AlignBsizeIdempotent | src/memapi.h:94-95 | an aligned size stays as it is, so aligning twice is aligning once |
| MemApi.AlignPsize | src/memapi.h:97 | a size aligned to the 8-byte pointer size |
| MemApi.AllocaBufNew | src/memapi.h:221-239 | the recorded size is the requested size aligned to the pointer size; only heap memory gets `mem_free` as its releaser |
| MemApi.MemStrdup | src/memapi.h:163-172 | NULL iff NULL; otherwise a new array holding the string and its NUL |
| MemApi.MemFreeS | src/memapi.h:196-211 | the variable is cleared and what it held is freed; a NULL address frees nothing |
| UniTypes.ChkConfigIntValue | src/unitypes.h:332-333 | 0 selects the default, -1 the maximum, and other values are clamped, lower bound first |
| UniTypes.ChkConfigInRange | src/unitypes.h:332-333 | an explicit value always ends within the bounds |
| UniTypes.ChkConfigIdempotent | src/unitypes.h:332-333 | with positive bounds and a default within them, checking twice is checking once |
| UniTypes.ChkConfigZeroBoundReselects | src/unitypes.h:332-333 | with a lower bound of 0, a negative value becomes 0, which a second check reads as "use the default" |
| UniTypes.CheckedLength | src/unitypes.h:351-370 | the length is always an index in the buffer, and it is the raw length iff the output fitted |
| UniTypes.SnprintfChkdV1 | src/unitypes.h:351-370 | a truncated or failed output gets a NUL as its last byte; an output that fitted is left untouched |

`getlocaltime_safe`, `timezone_format`, `difftime_msec` and the sleep
helpers have identical copies in `misc.h` (lines 134-161, 169-182, 267-347
and 351-388). The model cites the copies in `timeut.h`.

## Left out

- Threads, the mutex and the condition variable. Each critical section is one atomic method, so interleavings inside a critical section are not modelled, and neither is the wait of a worker on an empty queue.
- Calling the task function. `RunOnce` hands the task to the worker's context and stops there.
- `pthread_attr_init_config` and the stack size. `Create` takes `stackSize` and does not use it.
- The lock-failure, out-of-memory and thread-join error codes. Every pthread call and every allocation is taken to succeed.
- `thread_check_affinity_cpus`, `get_nprocs` and `pthread_setaffinity_np`. The number of online CPUs is a parameter.
- `threadpool_free` and the release of the pool's memory.
- ThreadPool.Pool.Destroy: sets `started` to 0 in place of joining each worker.
- Pointer identity in `cstr_compare_len`, `cstr_notequal_len`, `cstr_startwith` and `cstr_endwith` is the flag `same` (two NULLs always count as the same pointer). Whether two distinct pointers overlap is not modelled. The inner `cstr_notequal_len` of `cstr_endwith` compares equal lengths, where its pointer test gives the answer of the contents.
- CStrCompare.CompareLen: returns the sign of the C library comparison. `strcmp`, `strncmp` and their case-ignoring forms may return any integer of that sign.
- The `int` and `size_t` casts of lengths in the string helpers. Lengths are unbounded, except in `cstrbuf_alignsize`, where the 32-bit wrap is modelled.
- CStrText.ReplaceNew: requires a non-empty pattern. With an empty pattern the C loop never advances.
- The `printf` engine of `cstrbufCat` and its `vsnprintf` error paths. `Cat` receives the already formatted text.
- `cstrbufConcat`, `cstrbufCopyTo` and `cstrbufFree`.
- CStrBuffer.CStrBuf.Cat: the `realloc` that moves a full buffer is modelled as the same object receiving a new array. The old pointer becoming invalid is not modelled.
- CStrBuffer.CStrBuf.Dup: requires the source to be shorter than `cstrbuf_len_max`, so the size computation cannot overflow.
- `cstr_to_sb8`, `cstr_to_ub8` and `cstr_to_dbl`.
- `cstr_readline`, `cstr_parse_timestamp`, `cstr_datetime_print` and `cstr_timestamp_to_datetime`.
- `cstr_trim_chr`, `cstr_trim_whitespace`, the `_mul` variants and `cstr_split_substr`.
- CStrText.CountFields: models `cstr_slpit_chr` with no output array, which is the counting mode.
- File and path I/O, `getenv` and the probes of `find_config_pathfile` when no configuration path is given. Paths.ConfigPathFile covers the branch with a configuration path.
- `readlink` in `get_proc_abspath`. The path it reads is the buffer's contents.
- `nanosleep` and the Windows busy-wait in the sleep helpers. Only the timespec they compute is modelled.
- `getnowtimeofday`, `timezone_compute` and `daylight_compute`. The current time, the offset and the daylight flag are parameters.
- LocalTime.TimezoneFormat: the `long` to `int` cast of the offset is not modelled.
- LocalTime.GetLocalTimeSafe: for a local time before 1970, only the year, the month and the day fields are stated.
- LocalTime.GetLocalTimeSafe: the time and the fields are unbounded integers. The 64-bit `time_t` and the `int` of `tm_year` are not modelled, so a year beyond their range does not wrap.
- Affinity.CpuSet: takes every listed CPU id. glibc's `CPU_SET` ignores ids outside 0 to 1023, and those are not excluded here.
- CStrTrim.LRtrimWhitespace: requires a non-NULL string. With NULL the C function writes nothing and returns NULL; `cstr_isnumeric` handles that case in CStrText.IsNumeric.
- TimeUtil.DiffTimeMsec: the branch with both arguments NULL reads the clock. The current time is the parameter `now`.
- MemApi.AlignBsize: requires that the rounding does not overflow `size_t`.
- The allocator itself, its out-of-memory exit and `mem_free`. An allocation is a fresh array.
- `snprintf_chkd_V2` and the formatting done by `vsnprintf`. Its return value is a parameter.

## Findings

| source | as written | input that shows it | evidently intended | confidence | as-written member | corrected member |
|---|---|---|---|---|---|---|
| src/cstrbuf.h:141-168 | `cstr_Rtrim_chr` starts `q` at the first character whatever it is, so a string made only of `ch` keeps its first character | `"aa"` with `'a'` leaves `"a"` | every trailing `ch` removed, giving `""` | not executed | CStrTrim.RtrimChrKeepsOne | CStrTrim.TrailingCutIsTrim |
| src/cstrbuf.h:1808-1821 | `cstrbufPushBack` writes the character in place but no NUL after it | "abcdef" truncated to 2, then push 'x': the byte after "abx" is still 'd' | the buffer stays NUL-terminated | not executed | CStrBuffer.PushBackLeavesStaleByte | CStrBuffer.PushBackTerminatedScenario |
| src/cstrbuf.h:1175-1209 | `cstr_parse_timezone` returns -1 both for an error and for the offset "-00:01" | `"-00:01"` and `"UTC"` both give -1 | an error that no valid offset can return | not executed | CStrDate.MinuteWestCollidesWithError | CStrDate.ParseCheckedRoundTrip |
| src/timeut.h:316-354 | `difftime_msec` mixes the signed nanosecond difference with unsigned long constants, so a negative difference is divided as a huge unsigned value | from (5 s, 500000000 ns) to (5 s, 0 ns) gives 18446744073209 | -500 | not executed | TimeUtil.NegativeHalfSecondAsWritten | TimeUtil.SignedDiffAgrees |
