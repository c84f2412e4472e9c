# bmatch in Dafny

A model of the `bmatch` exact byte-pattern search library. `bmatch` takes a
haystack and a needle (byte sequences) and reports the first occurrence,
all occurrences, or their number. It picks one of several search engines by
the needle's length.

Each source file is one Dafny module:

| module | file | source |
|---|---|---|
| `Bytes` | bytes.dfy | the common vocabulary: bytes as `bv8`, occurrences, the contract of `bytes.Index`, strictly increasing offset lists, and chunk windows `haystack[max(0,startIdx-(m-1)) : startIdx+partLen]` with their offset translation |
| `Bits` | bits.dfy | single bits of 64-bit masks |
| `Zigzag` | zigzag.dfy | the two-ended ("zigzag") candidate comparison that bh2search and bcjsearch share |
| `Dispatch` | dispatch.dfy | `bmatch.go`: `Index`, `FindAll`, `Count` |
| `PairHashApi` | pairhash_api.dfy | `bh2search/bh2search.go`: the length guards around the engine as written, and the same guards over the corrected engine |
| `PairHash` | pairhash.dfy | `bh2search/search.go`: the pair-hash engine |
| `BitParallel` | bitparallel.dfy | `bs_fsbndm/search.go`: the bit-parallel engine |
| `SkipTable` | skiptable.dfy | `bcjsearch/search.go`: the single-byte skip table with look-ahead |
| `Memchr` | memchr.dfy | `unsafeMEMCHR.go`: the word-at-a-time single-byte scanner |
| `MemchrArm` | memchr_arm.dfy | `unsafeMEMCHR_arm.go`: the scanner built on `bytes.Index` |
| `Reference` | reference.dfy | `bmatch_test.go`: the Boyer–Moore finder and the reference loops |

How the engines are modelled:

- **Loops are methods.** Every loop of the source is an imperative method
  over `seq<bv8>` inputs, with its table in an `array`. The 256-entry
  tables are `array<int>`, and bs_fsbndm's table is `array<bv64>`. Each
  method is proved equal to a specification function that takes the
  loop's steps one at a time (`Step`, `ScanAll`, `ScanFirst`). The lemmas
  about those functions state what the engine promises.
- **The engines are compared with `Bytes.Occurrences`, not assumed equal
  to it.** `Bytes.Occurrences` is the ascending list of every occurrence,
  overlapping ones included. Where an engine departs from it at the edges
  (offset 0, the last window, self-overlapping needles), the lemmas say
  exactly how.
- **Bugs get both an as-written and a corrected model.** Where that
  departure is evidently a bug, the module keeps the as-written routine
  (`FindFirst`, `FindAllAsWritten`, …) with a concrete counterexample. It
  adds a corrected routine (`…Fixed`, `…Result`) that is proved exact.
  `PairHashApi` and `Dispatch` call the routines as written, as the
  source does; `PairHashApi` also puts the same guards around the
  corrected routines (`IndexFixed`, `CountFixed`, …).
- **Chunked searches (`*_CC`).** Each is modelled as the same engine run
  on the chunk window, with its offsets moved by the window's start `si`.
  The cancellation channel is modelled as never firing.

## Model

| member | source | states |
|---|---|---|
| `Dispatch.IndexEngine` | bmatch.go:57-71 | length 1 goes to the single-byte scanner, [2,50) and ≥350000 (both the `<1<<22` arm and the default) to the bit-parallel engine, [50,12000) to bhsearch, [12000,350000) to bh2search; each band in both directions |
| `Dispatch.FindAllEngine` | bmatch.go:82-96 | the same four bands for `FindAll` |
| `Dispatch.CountEngine` | bmatch.go:108-126 | the same four bands for `Count` |
| `Dispatch.SameThresholds` | bmatch.go:57-126 | the three switches pick the same engine for every needle length ≥ 1, so routing is total |
| `Dispatch.Index` | bmatch.go:51-74 | an empty needle gives (-1, error); one byte gives the first occurrence and a nil error; a routed engine's answer is returned unchanged; bh2search is only reached with ≥12000 bytes, so NEEDLESHORT cannot come back; it fails (with -1) exactly when the haystack is shorter than the needle, and otherwise gives -1 or a true occurrence that does not end on the haystack's last byte |
| `Dispatch.FindAll` | bmatch.go:76-100 | an empty needle gives an empty list and an error; one byte gives every occurrence; bs_fsbndm and bhsearch answers unchanged; in the bh2search band never NEEDLESHORT, an empty list with an error exactly when the haystack is shorter, otherwise true occurrences, strictly ascending, none ending on the last byte |
| `Dispatch.Count` | bmatch.go:102-129 | an empty needle gives (-1, error); one byte gives the number of occurrences; bs_fsbndm and bhsearch answers unchanged; in the bh2search band never NEEDLESHORT, -1 with an error exactly when the haystack is shorter, otherwise a count between 0 and the number of occurrences |
| `Dispatch.AnswersAgree` | bmatch.go:51-129 | where the answer is computed in the model (one byte, bh2search band), Count is the length of FindAll's list and Index is its first element or -1 |
| `PairHashApi.Index` | bh2search/bh2search.go:46-57 | NEEDLELONG exactly when the haystack is shorter than the needle, checked first; NEEDLESHORT exactly for needles under 3 bytes that fit; -1 on error; otherwise findFI's answer: -1 or a true occurrence that does not end on the haystack's last byte |
| `PairHashApi.Count` | bh2search/bh2search.go:59-70 | NEEDLELONG first, then NEEDLESHORT for needles under 2 bytes; -1 on error; otherwise count's answer, between 0 and the number of occurrences |
| `PairHashApi.FindAll` | bh2search/bh2search.go:72-83 | the same guards; an empty list on error; otherwise findALL's list: true occurrences, strictly ascending, none ending on the haystack's last byte |
| `PairHashApi.FindAllCC` | bh2search/bh2search.go:85-98 | an empty list for either bad length; otherwise findALL_CC's list: true occurrences of the whole haystack, strictly ascending, each inside the chunk window |
| `PairHashApi.FindIndexCC` | bh2search/bh2search.go:100-111 | -1 for either bad length; otherwise findFI_CC's answer: -1 or a true occurrence, and exactly the first element of FindAllCC's list on the same chunk, or -1 when that list is empty |
| `PairHashApi.CountIsLength` | bh2search/bh2search.go:59-83 | Count and FindAll fail together, and on success the count is the list's length |
| `PairHashApi.IndexIsFirst` | bh2search/bh2search.go:46-83 | where Index succeeds, FindAll succeeds and Index is its first element, or -1 |
| `PairHashApi.AsWrittenWithinFixed` | bh2search/bh2search.go:72-83 | FindAll fails exactly when FindAllFixed does, and every offset it reports is one FindAllFixed reports |
| `PairHashApi.IndexFixed` | bh2search/bh2search.go:46-57 | the same guards over the corrected findFI: the first occurrence (`bytes.Index`) on success |
| `PairHashApi.CountFixed` | bh2search/bh2search.go:59-70 | the same guards over the corrected count: the number of occurrences on success |
| `PairHashApi.FindAllFixed` | bh2search/bh2search.go:72-83 | the same guards over the corrected findALL: every occurrence, ascending, on success |
| `PairHashApi.FindAllCCFixed` | bh2search/bh2search.go:85-98 | the same guards over the corrected findALL_CC: true occurrences, strictly ascending, including every occurrence inside the chunk window |
| `PairHashApi.FindIndexCCFixed` | bh2search/bh2search.go:100-111 | the same guards over the corrected findFI_CC: the chunk's first occurrence, moved by `si` |
| `PairHashApi.FixedAnswersAgree` | bh2search/bh2search.go:46-83 | over the corrected engine too, where Index succeeds FindAll succeeds, Index is its first element or -1, and Count is its length |
| `Zigzag.BothEqual` | bh2search/search.go:81 | the branch-free `0 == (a^b)\|(c^d)` holds exactly when both byte pairs are equal |
| `Zigzag.Lim` | bh2search/search.go:45 | `(m + (1 - mm1&1)) >> 1`, with `&` binding tighter than `-`, is ceil(m/2) |
| `Zigzag.ZigSpec` | bh2search/search.go:83-91 | the inward loop reaches `lim` exactly when every symmetric byte pair from j on agrees with the needle |
| `Zigzag.CandidateSound` | bh2search/search.go:81-95 | a candidate that passes both end tests and the zigzag is an occurrence |
| `Zigzag.CandidateComplete` | bh2search/search.go:81-95 | every occurrence passes both end tests and the zigzag |
| `Zigzag.CandidateExact` | bh2search/search.go:81-95 | testing the two ends and then zigzagging to `lim` certifies a full match, and every match passes it |
| `PairHash.Hash` | bh2search/search.go:57-62 | `uint8(a + b<<2)` with byte arithmetic lands in one of the 256 buckets |
| `PairHash.JumpSpec` | bh2search/search.go:53-63 | bucket h holds m-1 minus the largest position t in 1..m-1 whose pair hashes to h, or m-1 when none does |
| `PairHash.BuildJumpTable` | bh2search/search.go:53-63 | the fill loops leave every bucket holding that jump |
| `PairHash.SkipAhead` | bh2search/search.go:68-77 | the inner loop computes the skip function: add the bucket's jump until it is zero or the cursor reaches the limit |
| `PairHash.SkipSafe` | bh2search/search.go:68-77 | no occurrence ends at a window end the skip loop jumps over |
| `PairHash.OccurrenceBoundsJump` | bh2search/search.go:70-72 | a jump never moves past an occurrence ending at or after the cursor |
| `PairHash.Step` | bh2search/search.go:67-97 | one outer iteration always moves the cursor forward |
| `PairHash.StepSound` | bh2search/search.go:81-95 | a verified candidate is a true occurrence and ends before the last byte |
| `PairHash.OuterStep` | bh2search/search.go:67-97 | the outer iteration: a front-side mismatch at j moves to i+j, a back-side one to i+1, a match to i+1+jmpMap[hay[i+1]] (indexed by the raw byte) |
| `PairHash.TailHitExact` | bh2search/search.go:100-109 | the trailing check reports exactly an occurrence ending on the last byte |
| `PairHash.TailCheck` | bh2search/search.go:100-109 | the trailing check's loop computes that test |
| `PairHash.ScanAllSound` | bh2search/search.go:152-182 | the loop reports true occurrences, strictly ascending, none ending on the last byte |
| `PairHash.ScanFirstIsHead` | bh2search/search.go:67-98 | findFI's loop stops at the first report of findALL's loop |
| `PairHash.SearchFirst` | bh2search/search.go:67-109 | the findFI loop plus trailing check, for bound n+1 or n |
| `PairHash.SearchAll` | bh2search/search.go:152-194 | the findALL loop plus trailing check, each offset moved by `base` |
| `PairHash.SearchCount` | bh2search/search.go:230-273 | the count loop counts exactly what the findALL loop lists |
| `PairHash.FindFirst` | bh2search/search.go:37-113 | findFI as written |
| `PairHash.FindAll` | bh2search/search.go:115-197 | findALL as written, empty for m < 2 |
| `PairHash.Count` | bh2search/search.go:199-276 | count is the length of findALL's list |
| `PairHash.FindFirstChunk` | bh2search/search.go:278-375 | findFI_CC as written, on the chunk window, moved by `si` |
| `PairHash.FindAllChunk` | bh2search/search.go:377-473 | findALL_CC as written, loop bound n, on the chunk window |
| `PairHash.FindAllAsWrittenSpec` | bh2search/search.go:115-197 | findALL reports true occurrences, strictly ascending, none ending on the last byte; findFI is its first element |
| `PairHash.FindOfNeedleItself` | bh2search/search.go:67-81 | with loop bound n+1 the trailing check never fires: a haystack equal to the needle is not found |
| `PairHash.AllResultSound` | bh2search/search.go:460-470 | with the trailing check the list stays sound and ascending |
| `PairHash.FindAllChunkAsWrittenSpec` | bh2search/search.go:377-473 | findALL_CC reports true occurrences of the whole haystack, strictly ascending, each inside the chunk window |
| `PairHash.FirstResultIsHead` | bh2search/search.go:66-112 | for any loop bound, the first-match loop plus trailing check returns the head of the collecting loop's list plus trailing check, or -1 when it is empty |
| `PairHash.FindFirstChunkAsWrittenSpec` | bh2search/search.go:278-375 | findFI_CC returns -1 or a true occurrence of the whole haystack, and exactly the first element of findALL_CC's list on the same chunk, or -1 when that list is empty |
| `PairHash.LeadingJumpSkipsOccurrence` | bh2search/search.go:87-89 | the i+j jump after a front-side mismatch skips an occurrence (concrete input) |
| `PairHash.RawByteJumpSkipsOccurrence` | bh2search/search.go:179 | the raw-byte jump after a match skips an overlapping occurrence (concrete input) |
| `PairHash.ChunkEndSkipped` | bh2search/search.go:428-461 | findALL_CC misses an occurrence ending on the chunk's last byte when a jump lands past it (concrete input) |
| `PairHash.StepFixed` | bh2search/search.go:67-97 | the corrected step checks windows up to the last byte and always moves on by one past the window |
| `PairHash.StepFixedHit` | bh2search/search.go:81-95 | the corrected step reports its window exactly when an occurrence ends there |
| `PairHash.ScanAllFixedExact` | bh2search/search.go:152-182 | from window end i, the corrected loop lists exactly the occurrences starting at or after i-m+1 |
| `PairHash.FindAllResultExact` | bh2search/search.go:115-197 | corrected findALL is exactly the list of occurrences |
| `PairHash.FindFirstResultExact` | bh2search/search.go:37-113 | corrected findFI is exactly `bytes.Index` |
| `PairHash.FindAllChunkResultExact` | bh2search/search.go:377-473 | corrected findALL_CC lists every occurrence inside the chunk window, as true, ascending haystack offsets |
| `PairHash.FindFirstChunkResultExact` | bh2search/search.go:278-375 | corrected findFI_CC is the first occurrence in the chunk window, moved by `si` |
| `PairHash.OuterStepFixed` | bh2search/search.go:67-97 | the corrected outer iteration computes `StepFixed` |
| `PairHash.SearchFirstFixed` | bh2search/search.go:67-98 | the corrected first-match loop |
| `PairHash.SearchAllFixed` | bh2search/search.go:152-182 | the corrected collecting loop returns every occurrence, moved by `base` |
| `PairHash.SearchCountFixed` | bh2search/search.go:236-260 | the corrected counting loop returns the number of occurrences |
| `PairHash.FindFirstFixed` | bh2search/search.go:37-113 | corrected findFI returns `bytes.Index` |
| `PairHash.FindAllFixed` | bh2search/search.go:115-197 | corrected findALL returns every occurrence (empty for m < 2) |
| `PairHash.CountFixed` | bh2search/search.go:199-276 | corrected count returns the number of occurrences (0 for m < 2) |
| `PairHash.FindFirstChunkFixed` | bh2search/search.go:278-375 | corrected findFI_CC |
| `PairHash.FindAllChunkFixed` | bh2search/search.go:377-473 | corrected findALL_CC |
| `BitParallel.Window` | bs_fsbndm/search.go:48-59 | p = m when m ≤ 63, p = 62 otherwise |
| `BitParallel.MaskBits` | bs_fsbndm/search.go:61-71 | every mask has bit 0; bit k in 1..p is set exactly when c is needle byte m-k |
| `BitParallel.BuildMasks` | bs_fsbndm/search.go:61-71 | the fill loops produce exactly that table |
| `BitParallel.TableUpToFull` | bs_fsbndm/search.go:68-71 | the table after all p stores is the mask table |
| `BitParallel.WalkBits` | bs_fsbndm/search.go:81-91 | bit k of the shift-and word is set exactly for the needle alignments that agree with the haystack so far |
| `BitParallel.WalkVanishes` | bs_fsbndm/search.go:86-91 | after p steps the word is zero, so the backward walk stops and its reads stay in bounds |
| `BitParallel.OccurrenceKeepsWalk` | bs_fsbndm/search.go:81-91 | an occurrence near the cursor keeps the word nonzero: the walk does not skip it |
| `BitParallel.ShortWalkFindsNeedle` | bs_fsbndm/search.go:106-122 | in short mode `backstp == m` holds exactly when the needle ends at hay[i] |
| `BitParallel.Backstop` | bs_fsbndm/search.go:86-91 | the final `backstp` is the first step count at which the word is zero, at most p |
| `BitParallel.WalkBack` | bs_fsbndm/search.go:112-118 | the backward walk loop computes `Backstop` |
| `BitParallel.Step` | bs_fsbndm/search.go:79-125 | one outer iteration moves the cursor forward |
| `BitParallel.StepSafe` | bs_fsbndm/search.go:79-125 | a hit is a true occurrence; no occurrence between cursor and next cursor is passed over except, in long mode, one a byte after a hit |
| `BitParallel.Probe` | bs_fsbndm/search.go:106-125 | the pair probe, walk and shift compute `Step` |
| `BitParallel.ScanAllSound` | bs_fsbndm/search.go:106-126 | loop-reported offsets are true occurrences in [1, n-m-1] |
| `BitParallel.ScanAllAscending` | bs_fsbndm/search.go:204-221 | loop-reported offsets are strictly ascending |
| `BitParallel.ScanAllComplete` | bs_fsbndm/search.go:174-199 | the loop misses no occurrence in range, except in long mode one starting right after a report (the cursor moves two past it) |
| `BitParallel.ShortScanAllExact` | bs_fsbndm/search.go:204-226 | in short mode the loop lists exactly the occurrences in [1, n-m-1] |
| `BitParallel.ScanFirstSpec` | bs_fsbndm/search.go:79-127 | findFI's loop returns the first occurrence in its range, or -1 |
| `BitParallel.ScanFirstIsHeadOfScanAll` | bs_fsbndm/search.go:106-127 | findFI's loop stops at findALL's first loop report |
| `BitParallel.SearchFirst` | bs_fsbndm/search.go:79-127 | findFI's search loop |
| `BitParallel.SearchAll` | bs_fsbndm/search.go:174-226 | findALL's search loop, offsets moved by `base` |
| `BitParallel.SearchCount` | bs_fsbndm/search.go:270-323 | count's loop counts what findALL's loop lists |
| `BitParallel.FindFirst` | bs_fsbndm/search.go:41-128 | findFI as written |
| `BitParallel.FindFirstOfNeedleItself` | bs_fsbndm/search.go:74-76 | findFI returns 1 for a haystack equal to the needle, where the needle does not occur |
| `BitParallel.FindFirstFixed` | bs_fsbndm/search.go:74-76 | findFI reporting whole-buffer equality at 0 |
| `BitParallel.FindFirstResultSpec` | bs_fsbndm/search.go:41-128 | corrected findFI returns a true occurrence or -1, and the first one in [1, n-m-1] otherwise |
| `BitParallel.FindAll` | bs_fsbndm/search.go:130-229 | findALL as written: whole-buffer match, last-window match, then the loop's reports |
| `BitParallel.FindAllSound` | bs_fsbndm/search.go:130-229 | every offset findALL and count report is a true occurrence |
| `BitParallel.FindAllOfNeedleItself` | bs_fsbndm/search.go:166-172 | a haystack equal to the needle gives [0, 0] |
| `BitParallel.FindAllLastWindowFirst` | bs_fsbndm/search.go:166-172 | when the last window matches, n-m comes first, ahead of smaller offsets: the list is not ascending |
| `BitParallel.ShortFindAllExact` | bs_fsbndm/search.go:130-229 | in short mode findALL finds every occurrence except one at offset 0 in a longer haystack |
| `BitParallel.Count` | bs_fsbndm/search.go:231-327 | count equals the length of findALL's list |
| `BitParallel.FindFirstChunk` | bs_fsbndm/search.go:329-444 | findFI_CC: `si` for a chunk equal to the needle, else the loop's answer moved by `si` |
| `BitParallel.FindFirstChunkSpec` | bs_fsbndm/search.go:329-444 | findFI_CC returns a true haystack occurrence or -1; for a chunk other than the needle it is the least occurrence starting in [si+1, startIdx+partLen-m-1], and -1 only when there is none there |
| `BitParallel.FindAllChunk` | bs_fsbndm/search.go:446-554 | findALL_CC as written, on `haystack[si:startIdx+partLen]` |
| `BitParallel.FindAllChunkAsWrittenReportsZero` | bs_fsbndm/search.go:495-497 | findALL_CC reports 0 instead of `si` for a chunk equal to the needle (concrete input) |
| `BitParallel.FindAllChunkFixed` | bs_fsbndm/search.go:446-554 | findALL_CC reporting that chunk at `si` |
| `BitParallel.FindAllChunkSound` | bs_fsbndm/search.go:456-463 | corrected findALL_CC reports true haystack occurrences, strictly ascending |
| `SkipTable.Maximize` | bcjsearch/search.go:33-38 | the larger argument |
| `SkipTable.ShiftSpec` | bcjsearch/search.go:57-63 | jmpMap[c] is m for bytes absent from the needle, else m-1 minus c's last index; zero exactly for the needle's last byte |
| `SkipTable.BuildShiftTable` | bcjsearch/search.go:57-63 | the fill loops produce that table |
| `SkipTable.LookAhead` | bcjsearch/search.go:69 | the look-ahead jump i+1+jmpMap[hay[i+1]] moves forward |
| `SkipTable.Advance` | bcjsearch/search.go:80-88 | the advance loop never moves backward |
| `SkipTable.AdvanceCC` | bcjsearch/search.go:434-442 | findALL_CC's advance stops no further than the other one |
| `SkipTable.ShiftSafe` | bcjsearch/search.go:80-88 | no occurrence ends within the shift of the byte under the cursor |
| `SkipTable.AdvanceSafe` | bcjsearch/search.go:80-88 | no occurrence ends at a window end the advance loop moves past |
| `SkipTable.AdvanceLoop` | bcjsearch/search.go:80-88 | the loop computes `Advance` |
| `SkipTable.AdvanceLoopCC` | bcjsearch/search.go:434-442 | the loop computes `AdvanceCC` |
| `SkipTable.AllEqual3` | bcjsearch/search.go:404-411 | the m = 3 branch-free test holds exactly when all three pairs are equal |
| `SkipTable.Step` | bcjsearch/search.go:67-93 | every routine's outer iteration moves the cursor forward |
| `SkipTable.StepHit` | bcjsearch/search.go:70-78 | findFI/findALL report a window once its first and last bytes agree; the chunk routines only on a full match; every occurrence is reported |
| `SkipTable.StepSafe` | bcjsearch/search.go:65-93 | findFI's and findALL_CC's steps pass over no occurrence |
| `SkipTable.FirstLastShort` | bcjsearch/search.go:70-78 | for one- and two-byte needles agreeing end bytes are a full match |
| `SkipTable.TailExact` | bcjsearch/search.go:95-104 | the trailing check reports exactly an occurrence on the last byte, never for m = 1 outside findALL_CC |
| `SkipTable.ScanAllCertified` | bcjsearch/search.go:67-93 | the loop's reports are certified, strictly ascending, below n |
| `SkipTable.ScanAllComplete` | bcjsearch/search.go:65-93 | findFI's and findALL_CC's loops report every occurrence ending below n |
| `SkipTable.ScanEndComplete` | bcjsearch/search.go:80-95 | an occurrence on the last byte makes the loop stop exactly on it |
| `SkipTable.ScanFirstIsHead` | bcjsearch/search.go:67-93 | the first-match loop stops at the collecting loop's first report |
| `SkipTable.EndsCertified` | bcjsearch/search.go:109-176 | every routine reports certified window ends, strictly ascending |
| `SkipTable.EndsComplete` | bcjsearch/search.go:109-176 | findALL/count report the end of every occurrence (except a one-byte needle's on the last byte); findALL_CC of every one |
| `SkipTable.LastReported` | bcjsearch/search.go:95-104 | an occurrence on the last byte is reported by the trailing check |
| `SkipTable.FirstIsHead` | bcjsearch/search.go:40-107 | findFI is the start of findALL's first reported window |
| `SkipTable.FindAllAsWrittenSpec` | bcjsearch/search.go:109-176 | findALL reports ascending window ends whose first and last bytes agree, includes every occurrence's end (bar the one-byte tail), and findFI is its first |
| `SkipTable.FindFirstChunkAsWrittenSound` | bcjsearch/search.go:247-351 | findFI_CC returns -1 or an occurrence inside the chunk window |
| `SkipTable.FindAllChunkAsWrittenSpec` | bcjsearch/search.go:353-462 | findALL_CC reports exactly the end of every occurrence in the chunk window, moved by `si` |
| `SkipTable.CertifiesOnlyEnds` | bcjsearch/search.go:71-78 | findFI and findALL report a window that differs in the middle (concrete input) |
| `SkipTable.OneByteTailMissed` | bcjsearch/search.go:95-104 | a one-byte needle on the last byte is missed (concrete input) |
| `SkipTable.EndsNotStarts` | bcjsearch/search.go:146 | findALL lists the window's end, not its start (concrete input) |
| `SkipTable.FrontMismatchSkips` | bcjsearch/search.go:300-320 | findFI_CC's i+j move after a front-side mismatch skips an occurrence (concrete input) |
| `SkipTable.PlainStep` | bcjsearch/search.go:67-93 | findFI/findALL/count's outer iteration |
| `SkipTable.FirstChunkStep` | bcjsearch/search.go:288-337 | findFI_CC's outer iteration |
| `SkipTable.AllChunkStep` | bcjsearch/search.go:394-448 | findALL_CC's iteration in its m = 2, m = 3 and default forms |
| `SkipTable.CandidateCheck` | bcjsearch/search.go:422-433 | the end-byte test and zigzag loop of findALL_CC's default form accept a window exactly when it is a candidate, hence exactly when it holds an occurrence |
| `SkipTable.OuterStep` | bcjsearch/search.go:65-93 | the outer iteration of each routine computes `Step` for that routine |
| `SkipTable.TailCheck` | bcjsearch/search.go:95-104 | the trailing check |
| `SkipTable.TailCheckCC` | bcjsearch/search.go:450-459 | findALL_CC's trailing check |
| `SkipTable.SearchFirst` | bcjsearch/search.go:65-104 | loop to the first report, then the trailing check |
| `SkipTable.SearchAll` | bcjsearch/search.go:134-173 | the collecting loop, moved by `base` |
| `SkipTable.SearchCount` | bcjsearch/search.go:203-242 | the counting loop counts what the collecting loop lists |
| `SkipTable.FindFirst` | bcjsearch/search.go:40-107 | findFI as written |
| `SkipTable.FindAll` | bcjsearch/search.go:109-176 | findALL as written |
| `SkipTable.Count` | bcjsearch/search.go:178-245 | count equals the length of findALL's list |
| `SkipTable.FindFirstChunk` | bcjsearch/search.go:247-351 | findFI_CC as written |
| `SkipTable.FindAllChunk` | bcjsearch/search.go:353-462 | findALL_CC as written |
| `SkipTable.FindAllResultExact` | bcjsearch/search.go:109-176 | corrected findALL is exactly the occurrence list |
| `SkipTable.FindAllResultSound` | bcjsearch/search.go:109-176 | corrected findALL is ascending and sound |
| `SkipTable.FindAllResultComplete` | bcjsearch/search.go:109-176 | corrected findALL misses no occurrence |
| `SkipTable.FindFirstResultExact` | bcjsearch/search.go:40-107 | corrected findFI is `bytes.Index` |
| `SkipTable.FindFirstChunkResultExact` | bcjsearch/search.go:247-351 | corrected findFI_CC is the chunk's first occurrence moved by `si` |
| `SkipTable.FindAllChunkResultExact` | bcjsearch/search.go:353-462 | corrected findALL_CC lists every occurrence inside the chunk window as true, ascending offsets |
| `SkipTable.FindFirstFixed` | bcjsearch/search.go:40-107 | corrected findFI returns `bytes.Index` |
| `SkipTable.FindAllFixed` | bcjsearch/search.go:109-176 | corrected findALL returns every occurrence |
| `SkipTable.CountFixed` | bcjsearch/search.go:178-245 | corrected count returns the number of occurrences |
| `SkipTable.FindFirstChunkFixed` | bcjsearch/search.go:247-351 | corrected findFI_CC |
| `SkipTable.FindAllChunkFixed` | bcjsearch/search.go:353-462 | corrected findALL_CC, reporting starts |
| `Memchr.ZeroLaneDetected` | unsafeMEMCHR.go:84-86 | the word test never misses a zero lane |
| `Memchr.ZeroLaneTestFalsePositive` | unsafeMEMCHR.go:86-92 | the word test can fire with no zero lane; the lane loop filters it |
| `Memchr.NeedleMaskWord` | unsafeMEMCHR.go:74-78 | needleMask holds the byte in all eight lanes |
| `Memchr.BuildNeedleMask` | unsafeMEMCHR.go:74-78 | the shift loop builds that mask |
| `Memchr.MatchLanes` | unsafeMEMCHR.go:83-88 | after a little-endian load and `^ needleMask`, lane idx is zero exactly when `hayst[uint64Idx+idx] == char` |
| `Memchr.NoHitsInWord` | unsafeMEMCHR.go:86 | a word the test rejects holds no hit |
| `Memchr.FirstLane` | unsafeMEMCHR.go:83-92 | the word step returns the first lane holding the byte, or -1 |
| `Memchr.MmIndex` | unsafeMEMCHR.go:50-112 | the smallest index holding the needle's last byte, or -1 |
| `Memchr.ByteIndexSpec` | unsafeMEMCHR.go:43-49 | that index is a position of the byte with none before it, and -1 means absent |
| `Memchr.ByteIndexIsIndex` | unsafeMEMCHR.go:43-49 | it agrees with `bytes.Index` for the one-byte needle |
| `Memchr.PositionsSpec` | unsafeMEMCHR.go:114-120 | `Positions` lists exactly the positions of the byte, strictly ascending |
| `Memchr.PositionsAreOccurrences` | unsafeMEMCHR.go:114-120 | those positions are the occurrences of the one-byte needle |
| `Memchr.AppendLanes` | unsafeMEMCHR.go:157-166 | mmFindALL's word step appends the word's hits in lane order |
| `Memchr.AppendWords` | unsafeMEMCHR.go:155-173 | the word loop lists the hits in the full words |
| `Memchr.AppendTail` | unsafeMEMCHR.go:174-182 | the byte-wise tail appends the hits from its start |
| `Memchr.MmFindAll` | unsafeMEMCHR.go:121-184 | mmFindALL as written |
| `Memchr.FindAllAsWrittenExtra` | unsafeMEMCHR.go:174-182 | when n%8 != 0, hits of the last full word are appended a second time |
| `Memchr.FindAllAsWrittenRepeats` | unsafeMEMCHR.go:174-182 | nine bytes with the byte at 0 give [0, 0] (concrete input) |
| `Memchr.MmFindAllFixed` | unsafeMEMCHR.go:121-184 | with the tail restarted at n - n%8, every position once, ascending |
| `Memchr.CountLanes` | unsafeMEMCHR.go:226-235 | mmCount's word step counts the word's hits |
| `Memchr.MmCount` | unsafeMEMCHR.go:193-255 | the number of positions of the byte, each counted once |
| `MemchrArm.ArmIndex` | unsafeMEMCHR_arm.go:56-71 | -1 for a short haystack, otherwise `bytes.Index` |
| `MemchrArm.ArmFindAll` | unsafeMEMCHR_arm.go:80-109 | empty for a short haystack, otherwise every occurrence |
| `MemchrArm.ArmCount` | unsafeMEMCHR_arm.go:118-142 | 0 for a short haystack, otherwise the number of occurrences, the length of mmFindALL's list |
| `MemchrArm.ArmFindAllSpec` | unsafeMEMCHR_arm.go:98-106 | that list is strictly ascending, sound, and includes overlapping occurrences |
| `Reference.Max` | bmatch_test.go:531-536 | the larger argument |
| `Reference.BadCharSpec` | bmatch_test.go:428-435 | badCharSkip defaults to the length; for a byte in pattern[0..last) it is last minus its rightmost index there |
| `Reference.BuildBadCharSkip` | bmatch_test.go:466-478 | the fill loops produce that table |
| `Reference.Lcs` | bmatch_test.go:503-510 | the last k bytes agree, k stops at the shorter length or the first mismatch |
| `Reference.LongestCommonSuffix` | bmatch_test.go:503-510 | the loop computes `Lcs` |
| `Reference.LastPrefix` | bmatch_test.go:480-490 | the first pass's lastPrefix is a suffix that is also a prefix |
| `Reference.GoodSuffixSafe` | bmatch_test.go:483-498 | goodSuffixSkip[j] ≥ last-j+1, and never beyond a shift the pattern leaves open |
| `Reference.MismatchSafe` | bmatch_test.go:520-527 | a mismatch moves the window forward and past no occurrence |
| `Reference.FillFirstPass` | bmatch_test.go:480-490 | the first pass over goodSuffixSkip |
| `Reference.FillSecondPass` | bmatch_test.go:491-498 | the second pass over goodSuffixSkip |
| `Reference.BuildGoodSuffixSkip` | bmatch_test.go:479-498 | the finished goodSuffixSkip |
| `Reference.StringFinder.constructor` | bmatch_test.go:460-501 | makeStringFinder builds both tables |
| `Reference.StringFinder.Next` | bmatch_test.go:512-529 | next returns the first occurrence, or -1 |
| `Reference.StrBMFirst` | bmatch_test.go:557-566 | strBMFI is `bytes.Index` |
| `Reference.StrBMCount` | bmatch_test.go:538-555 | strBMCount counts every occurrence except the one `MissedAtEnd` names |
| `Reference.CountWith` | bmatch_test.go:545-553 | strBMCount's loop counts what `BMLeft` says: every occurrence but a final one filling the rest |
| `Reference.StrBMCountMissesEnd` | bmatch_test.go:545 | the `len(s) > len(sep)` guard misses a match that fills the rest (concrete input) |
| `Reference.StrBMCountFixed` | bmatch_test.go:538-555 | with the guard `>=`, the number of occurrences |
| `Reference.CountFixedWith` | bmatch_test.go:545-553 | with the guard `>=`, the loop counts every occurrence |
| `Reference.StrBMFindAll` | bmatch_test.go:568-589 | every occurrence, strictly ascending |
| `Reference.FindAllWith` | bmatch_test.go:578-587 | strBMFindAll's loop lists every occurrence |
| `Reference.BytesIndexCount` | bmatch_test.go:591-606 | the number of occurrences, the length of bytesIndexFindAll's list |
| `Reference.BytesIndexFindAll` | bmatch_test.go:615-634 | every occurrence, strictly ascending |

## Left out

- Concurrency in the `*_CC` routines is not modelled: `runtime.LockOSThread`, the `threads` completion signal, and the `breaker` channel polls with their `len(*haystack)` sentinel. The breaker is modelled as never firing.
- Raw memory access in `unsafeMEMCHR.go` is not modelled. The word loop reads from an aligned base with little-endian loads, and `limIdx` is `n - n%8` rather than an absolute address. Over-reads for `n < 8` or an unaligned base are not modelled.
- Memchr.MmIndex: requires a haystack of at least 8 bytes. The source takes `&hayst[0]` before its length guard and always reads a first word, so shorter haystacks are outside its safe domain. The same holds for `Memchr.MmFindAll` and `Memchr.MmCount`.
- The bhsearch package and the `Index`/`FindAll`/`Count` wrappers of bs_fsbndm and bcjsearch are not part of this model. `Dispatch` takes their answers as parameters and returns them unchanged.
- `bytes.Index`, `bytes.Equal` and `strings.HasPrefix` are modelled by their standard contracts (`Bytes.Index`, sequence equality, `Reference.HasPrefix`), not by their implementation.
- `Dispatch` routes a one-byte needle to the single-byte scanners through their values (the first occurrence, the occurrence list, its length). This matches `unsafeMEMCHR_arm.go`, and `unsafeMEMCHR.go` with the corrected mmFindALL; the as-written duplicate hits of `Memchr.MmFindAll` are not carried into `Dispatch.FindAll`.
- Capacity hints (`buflen`, `bufLen`) affect allocation only and are not modelled.
- `ALPHABET` is fixed at 256 (`Bytes.Alphabet`). The commented-out small-alphabet thresholds in `bmatch.go` are not modelled.
- The test harness is not modelled: downloads, random pattern generation, `TestMain`, the `Test*` and `Benchmark*` functions, and `bytesIndexFI`, which is a single `bytes.Index` call.
- SkipTable.FindFirst: requires a haystack longer than the needle, because the first iteration reads `hay[m]` and Go would panic on a shorter one. The chunk routines require the same of their chunk window.
- BitParallel.FindAll: requires a haystack at least as long as the needle, because `hay[n-m:]` would panic otherwise. The same holds for `BitParallel.Count`.
- MemchrArm.ArmFindAll: requires a non-empty needle. With an empty one, `bytes.Index` returns 0 forever and the slice `hayst[1:]` of an empty remainder panics. The same holds for `MemchrArm.ArmCount`.
- PairHashApi.Index: on success states that the answer is -1 or a true occurrence, not that it is the first one, because findFI as written can jump past occurrences (see Findings); `PairHashApi.IndexFixed` states the first occurrence. The same holds for `PairHashApi.FindAll` (sound, not complete), `PairHashApi.Count` (at most the number of occurrences), `PairHashApi.FindAllCC` and `PairHashApi.FindIndexCC`, and for the bh2search band of `Dispatch.Index`, `Dispatch.FindAll` and `Dispatch.Count`.
- Equality with a naive scan is proved only for the corrected engines. For the engines as written, the model proves soundness, ordering, count equals list length, and the exact edge behaviour.

## Findings

| source | as written | input that shows it | evidently intended | confidence | as-written member | corrected member |
|---|---|---|---|---|---|---|
| bs_fsbndm/search.go:74-76 | findFI returns 1 when the haystack equals the needle | any haystack equal to the needle | return 0 | high; not executed | `BitParallel.FindFirstOfNeedleItself` | `BitParallel.FindFirstResultSpec` |
| bs_fsbndm/search.go:495-497 | findALL_CC appends 0, not `si`, for a chunk equal to the needle | haystack [0,1,2], needle [1,2], startIdx 2, partLen 1 gives [0] | append `si` | high; not executed | `BitParallel.FindAllChunkAsWrittenReportsZero` | `BitParallel.FindAllChunkSound` |
| bh2search/search.go:87-89 | after a front-side mismatch at j the cursor jumps to i+j, past occurrences | needle [0,0,1,1,1] in [0,0,0,1,1,1,0]: findFI gives -1, occurrence at 1 | advance by one | high; not executed | `PairHash.LeadingJumpSkipsOccurrence` | `PairHash.FindFirstResultExact` |
| bh2search/search.go:179 | after a match the jump is looked up by the raw byte `hay[jmp]`, not a pair hash | needle [1,1] in [1,1,1,0]: findALL gives [0], occurrences [0,1] | advance by one | high; not executed | `PairHash.RawByteJumpSkipsOccurrence` | `PairHash.FindAllResultExact` |
| bh2search/search.go:67-81 | with `i < n+1` and the candidate test `i < n`, no window ending on the last byte is ever reported | a haystack equal to the needle gives -1 and [] | report an occurrence ending on the last byte | high; not executed | `PairHash.FindOfNeedleItself` | `PairHash.ScanAllFixedExact` |
| bh2search/search.go:428-461 | findALL_CC checks the chunk's last window only if the cursor lands exactly on it | needle [1,2,3] in [0,1,2,3], startIdx 0, partLen 4 gives [] | report it | high; not executed | `PairHash.ChunkEndSkipped` | `PairHash.FindAllChunkResultExact` |
| bcjsearch/search.go:71-78 | the zigzag loop has no `break`, so only the first and last bytes are certified | needle [1,2,1] in [1,3,1,4]: findFI gives 0 | compare every byte | high; not executed | `SkipTable.CertifiesOnlyEnds` | `SkipTable.FindFirstResultExact` |
| bcjsearch/search.go:146 | findALL records the window's end index, not its start | needle [1,2] in [1,2,0] gives [1] | record `i-mm1` | medium; not executed | `SkipTable.EndsNotStarts` | `SkipTable.FindAllResultExact` |
| bcjsearch/search.go:95-104 | for m = 1 the trailing check's loop ends with j = 1 ≠ m-1, so a last-byte match is missed | needle [1] in [0,1] gives [] | report it | high; not executed | `SkipTable.OneByteTailMissed` | `SkipTable.FindAllResultComplete` |
| bcjsearch/search.go:300-320 | findFI_CC moves to i+j after a front-side mismatch, past occurrences | needle [1,1,2,2,2,2] in [1,1,1,2,2,2,2] gives -1, occurrence at 1 | advance by the table only | high; not executed | `SkipTable.FrontMismatchSkips` | `SkipTable.FindFirstChunkResultExact` |
| unsafeMEMCHR.go:174-175 | the tail restarts at `uint64Idx - 8`, so hits of the last full word are appended twice when n%8 != 0 | [1,0,0,0,0,0,0,0,0] with byte 1 gives [0,0] | restart at `n - n%8`, as mmCount does | high; not executed | `Memchr.FindAllAsWrittenRepeats` | `Memchr.MmFindAllFixed` |
| bmatch_test.go:545 | strBMCount loops only while `len(s) > len(sep)`, missing a match that fills the rest | needle [1] in [1,1] counts 1, occurrences [0,1] | `len(s) >= len(sep)` | medium; not executed | `Reference.StrBMCountMissesEnd` | `Reference.StrBMCountFixed` |
