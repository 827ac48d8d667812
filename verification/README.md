# c-lite: a model of the library's core, with proofs

c-lite is a freestanding C library for a 32-bit little-endian system. This project restates its most intricate
routines in Dafny, in the imperative form the C code has, and proves what they promise: the `malloc` family over one
flat byte memory, the `fnmatch` matcher and the `glob` built on it, the `rand` generator, `qsort` and `bsearch`, the
number readers and writers, `vsnprintf` and `vsscanf`, the environment, `getopt`, the IPv4 text functions and the path
normaliser of `realpath`.

`dafny verify dfyconfig.toml` checks the whole project.

## How the model is laid out

| files | what they hold |
|---|---|
| `Memory` | bytes, 32-bit words stored little-endian, frames, powers of two |
| `HeapLayout`, `HeapState`, `Allocator`, `HeapRuns`, `MallocLaws` | the block list, what one in-place update does to it, the allocator class, every run of its calls, and its answers in plain arithmetic |
| `CStrings`, `FnMatch`, `FnMatchLaws`, `BracketLaws`, `EscapeLaws` | C strings, the pattern language, the matcher, laws of the language, what brackets and backslashes mean on the text of a pattern |
| `PeriodRule`, `PeriodStars`, `PeriodExact`, `BracketEscapes` | where FNM_PERIOD and FNM_NOESCAPE are not what they are meant to be |
| `DirTree`, `GlobLevels`, `Glob` | directory trees and paths, the level-by-level expansion, glob |
| `Rand` | the generator and its period |
| `Sorting` | byte tables, qsort, bsearch |
| `Numerals`, `StrtolLaws`, `Itoa` | digits, strtol, the forms of a number it reads, itoa |
| `PrintfSpec`, `Printf`, `Vsnprintf`, `PrintfLaws`, `FormatLaws` | the text a format denotes, the bounded printer, and what each directive writes |
| `Scanf`, `ScanPrint`, `ScanExact`, `ScanLaws` | the scanner, when it undoes the printer, and what each directive takes |
| `Net`, `NetLaws` | byte order and IPv4 text, and the address forms accepted |
| `Getopt`, `GetoptLaws` | the option parser, and how an option string is read |
| `Environ`, `RealPath` | one component each |

Conventions. A pointer into a C string is modelled by the string that is left from it. `char` is signed, as on the
target: a literal byte above 127 in a pattern is compared as a negative number. `size_t`, `int` and `long` have 32
bits; unsigned arithmetic wraps where the code lets it, and signed overflow is taken to wrap as well. The kernel's
answer to a request for more memory, whether an inner `malloc` succeeds, and what `getcwd` answers are parameters. A
comparison function is a pure function of the bytes of its two elements.

The allocator keeps its headers in the same bytes its clients write to. The ghost field `blocks` says which blocks the
headers describe, `Live` is the map from payload address to payload bytes that a client sees, and `Buffers` is that map
for a heap state. `WellFormed` says that the blocks tile the heap from its base to the break in address order, that
every header in memory agrees with them, that sizes are multiples of 8, and that no two neighbours are both free.

## Where the code differs from what one expects

Each of these has a lemma with a failing input or family of inputs, and a for-all theorem that says when the expected
property does hold.

- `Allocator.RequestArithmetic`: for requests from 0xFFFFFFE9 to 0xFFFFFFF8 the growth wraps and the block would not
  fit in it; from 0xFFFFFFF9 on the rounding wraps and the block is smaller than the request.
- `PeriodExact`: `FNM_PERIOD` is meant for periods at the start and, under `FNM_PATHNAME`, behind a `/`. After a `*` the
  code takes every period for a leading one (`PeriodRestartsAfterStar`: `*?` refuses names that end in a period), and
  behind an escaped `/` it overlooks a leading one (`EscapedSlashOverlooked`). `StrictExactly`, `LenientExactly` and
  `RuleExactly` are exact for all patterns and flags. Unless nothing matches at all, the code refuses too much exactly
  if some `*` stands directly in front of a `?`, or of a bracket that takes a period without listing it, and is not
  excused. It is excused if it stands at a start, that next token takes every byte, and the tokens from there to the
  next `*` take, first, a period and then, each, whatever the one before takes. `LaterStarHelps`: `*?*` is excused. The
  code accepts too much exactly if, under `FNM_PATHNAME`, an escaped `/` stands directly in front of such a token or a
  `*`.
- `BracketEscapes`: inside brackets a backslash quotes even under `FNM_NOESCAPE`, so `[\]` does not match a backslash
  (`QuotedClose`). `NoescapeExactly`: the pattern is read as `FNM_NOESCAPE` asks if and only if no bracket has a
  backslash in front of the `]` that closes it. `AgreeingMatches`: it is enough that the two readings of every bracket
  end in the same place and hold the same bytes, as they do for a doubled backslash (`DoubledBackslash`).
- `FnMatchLaws.FastPathAgrees`: the literal shortcut of glob agrees with fnmatch exactly when the unescaped text has
  only 7-bit bytes.
- `FnMatchLaws.GlobUnescape` and `Glob.Glob`: a pattern without metacharacters is copied past the end of its buffer
  exactly when its unescaped text has 1024 bytes or more.
- `Environ.PutKeepsDistinct`: `putenv` keeps the names of the environment distinct if and only if its argument is not
  itself an entry of the table; given an entry it adds that entry once more (`PutSlotDuplicates`).
- `Getopt.RunsAreComplete`: a caller who stops at -1 sees every option of every command line if and only if the option
  string does not list the byte 0xFF (`HiddenOption`).
- `Net.AtonOfNtoa`: `inet_aton` rejects the text `inet_ntoa` writes for every address with a zero octet, because a lone
  `0` is consumed as an octal prefix and leaves no digits to count.
- `ScanExact.RecoversExactly`: a format gives its values back exactly when no `%d` is followed directly by a digit or
  by another `%d`.

Two remarks without a lemma. `vsnprintf` returns the number of bytes written, not the number an unbounded buffer would
have taken. The repository's own README.md says that `glob` always returns the pattern as its one match, and that
`free` merges forward and then backward; in the code `glob` expands the pattern, and `free` makes one pass over the
whole list. The model follows the code.

## Model

| member | source | states |
|---|---|---|
| `Allocator.RequestArithmetic` | src/stdlib.c:35-60 | the 8-byte rounding covers the request if and only if it is at most 0xFFFFFFF8, and header plus block fill the growth asked for if and only if the request is outside 0xFFFFFFE9..0xFFFFFFF8 |
| `Allocator.Heap.constructor` | src/stdlib.c:18 | a process whose break has not moved has a well-formed heap with no live buffers |
| `Allocator.Heap.Sbrk` | src/stdlib.c:20-30 | the old break is returned, moved by the increment, exactly if it is a positive address and, for an increment other than 0, the kernel is willing and the new break lies in memory; otherwise nothing changes and the failure value is returned |
| `Allocator.Heap.Malloc` | src/stdlib.c:32-78 | NULL exactly for size 0 or when no free block fits and the break cannot grow, and then nothing changed; otherwise one new buffer, in the lowest free block that fits or, only if none fits, behind the break; it has the rounded size, or the whole block if too little would be left over; every other buffer keeps place and bytes and the heap stays well-formed |
| `Allocator.Heap.Allot` | src/stdlib.c:41-54 | using a fitting free block, split or whole, adds exactly one buffer, of the size to expect, and leaves the heap well-formed |
| `Allocator.Heap.Split` | src/stdlib.c:42-51 | the header stores of a split keep the list sound, change no buffer and leave exactly the two halves |
| `Allocator.Heap.Claim` | src/stdlib.c:52-53 | clearing the free flag hands the payload of that block, and nothing else, to the client |
| `Allocator.Heap.Extend` | src/stdlib.c:59-77 | malloc's result when no block fits |
| `Allocator.Heap.Append` | src/stdlib.c:65-75 | the header and link stores behind the old break add exactly one buffer of the rounded size |
| `Allocator.Heap.Free` | src/stdlib.c:80-100 | exactly the freed buffer disappears, all others keep their bytes, the heap is coalesced again; NULL and pointers without the magic change nothing |
| `Allocator.Heap.Release` | src/stdlib.c:83-88 | setting the free flag removes exactly that buffer |
| `Allocator.Heap.Coalesce` | src/stdlib.c:89-99 | the merge pass ends, changes no buffer, and leaves no two free neighbours anywhere in the list |
| `Allocator.Heap.Merge` | src/stdlib.c:93-94 | the two stores of a merge keep the list sound and change no buffer |
| `Allocator.Heap.Calloc` | src/stdlib.c:102-112 | NULL when the product exceeds 32 bits; otherwise placed as malloc would place the product, and all requested bytes are zero |
| `Allocator.Heap.Realloc` | src/stdlib.c:114-134 | each of the five cases; a moved buffer starts with all bytes of the old one, the old one is gone and no other buffer changes; a failure leaves everything as it was |
| `Allocator.Heap.Zero` | src/string.c:49-55 | memset to zero inside one live buffer changes those bytes and no other buffer |
| `Allocator.Heap.Copy` | src/string.c:21-28 | memcpy between two live buffers changes those bytes of the target and no other buffer |
| `Allocator.ProductCheck` | src/stdlib.c:103 | calloc's division test is true if and only if the product needs more than 32 bits |
| `Allocator.MagicMeansLive` | src/stdlib.c:83-86 | in a well-formed heap a live pointer has the magic and its size in front of it |
| `Allocator.FirstIsLowest` | src/stdlib.c:40-57 | the first fit in list order is the fit with the lowest address |
| `Allocator.SplitNoAdjacent` | src/stdlib.c:42-52 | splitting and taking the first half creates no pair of free neighbours |
| `Allocator.MergeKeepsPrefix` | src/stdlib.c:91-95 | a merge keeps the coalesced prefix of the list coalesced |
| `HeapState.Splice` | src/stdlib.c:41-99 | rewriting any stretch of blocks in place keeps the list sound and every buffer outside the stretch |
| `HeapState.SplitBlock` | src/stdlib.c:43-50 | a split is invisible to the client |
| `HeapState.MergeBlocks` | src/stdlib.c:92-94 | a merge is invisible to the client |
| `HeapState.TakeBlock` | src/stdlib.c:52 | taking a block adds its payload to the client's map |
| `HeapState.ReleaseBlock` | src/stdlib.c:88 | releasing a block removes its payload from the client's map |
| `HeapState.AppendBlock` | src/stdlib.c:65-75 | linking a fresh block behind the last one adds exactly its payload |
| `HeapLayout.TilesOrdered` | src/stdlib.c:11-18 | the list is strictly ordered by address and no two blocks overlap |
| `HeapLayout.TilesFootprint` | src/stdlib.c:11-18 | headers and payloads together are exactly the bytes from base to break |
| `HeapLayout.LiveLookup` | src/stdlib.c:11-18 | live pointers are exactly the payload addresses of blocks in use, with their bytes |
| `HeapLayout.CanonicalLayout` | src/stdlib.c:89-99 | two coalesced tilings of the same range with the same blocks in use are the same list |
| `HeapRuns.Perform` | src/stdlib.c:32-134 | the allocator's methods take exactly the steps of the state machine |
| `HeapRuns.ReachableHeaps` | src/stdlib.c:20-134 | after every run of calls and client stores the heap is well-formed, ordered, and its blocks add up to break minus base |
| `HeapRuns.BufferHoldsNoHeader` | src/stdlib.c:32-134 | every live buffer lies inside the heap behind a header, and no block header lies inside it |
| `HeapRuns.LiveBuffersDisjoint` | src/stdlib.c:32-134 | two live buffers are separated by at least a header |
| `HeapRuns.BuffersPersist` | src/stdlib.c:32-134 | through every run a buffer keeps its place and bytes until a call is aimed at it |
| `HeapRuns.HistoryIndependence` | src/stdlib.c:80-100 | heaps with the same break and the same live pointers and sizes have the same block list, whatever calls led to them |
| `HeapRuns.MallocDeterminate` | src/stdlib.c:32-78 | malloc's answer and the size of the buffer are functions of what the client can see |
| `HeapRuns.EmptyHeapIsOneBlock` | src/stdlib.c:80-100 | when everything has been freed the heap is one free block, or was never used |
| `MallocLaws.RoundingIsLeast` | src/stdlib.c:35 | a request is rounded up to the next multiple of 8, and no further |
| `MallocLaws.MallocExactly` | src/stdlib.c:32-78 | malloc returns NULL exactly if no free block has room for the rounded request and the break, or the memory, or an unwilling kernel does not allow a move over header and payload |
| `MallocLaws.FirstRequest` | src/stdlib.c:59-77 | with a willing kernel and memory enough the first request gets the bytes behind the first header |
| `MallocLaws.SliversStay` | src/stdlib.c:41-54 | a block is cut if and only if header and at least 16 bytes are left over; otherwise it is handed out whole |
| `MallocLaws.ReallocExactly` | src/stdlib.c:114-134 | realloc of a live buffer: NULL exactly if it must move and malloc would fail, the same pointer exactly if the block is large enough, and in every case all its bytes and all other buffers kept |
| `MallocLaws.FreeUndoesMalloc` | src/stdlib.c:32-100 | freeing what malloc gave restores the client's view and, unless the break moved, the very block list |
| `MallocLaws.RoomAround` | src/stdlib.c:89-99 | after the merge pass one free block covers the whole place of the freed one |
| `MallocLaws.FreedRoomIsBack` | src/stdlib.c:32-100 | after a free, a request that is not larger than the freed buffer succeeds without moving the break, at no higher address |
| `FnMatch.Fnmatch` | src/fnmatch.c:64-143 | returns 0 if and only if the string is in the language of the tokenised pattern, for all flags and all bytes, and terminates |
| `FnMatch.MatchStar` | src/fnmatch.c:84-100 | the star case decides the language from the star on |
| `FnMatch.Backtrack` | src/fnmatch.c:94-99 | trying prefixes from the shortest, stopping at a slash, decides whether any allowed prefix works |
| `FnMatch.SkipStarRun` | src/fnmatch.c:85 | a run of stars counts as one |
| `FnMatch.MatchClass` | src/fnmatch.c:112-133 | the bracket case consumes one byte if and only if the language does, and goes on behind the bracket, or behind a literal '[' if it is never closed |
| `FnMatch.MatchBracket` | src/fnmatch.c:6-43 | -1 if the bracket is never closed; otherwise the pattern behind it, and membership in the class: ranges, escapes, a leading ']', negation |
| `FnMatch.NextRange` | src/fnmatch.c:20-37 | one member or range of a bracket, escapes included |
| `FnMatch.ClassHasDot` | src/fnmatch.c:47-62 | whether the bracket lists '.' |
| `FnMatch.LangBracket` | src/fnmatch.c:112-133 | what the language demands at a bracket, closed or not |
| `FnMatch.LangStar` | src/fnmatch.c:84-100 | what the language demands at a star |
| `FnMatch.LastChance` | src/fnmatch.c:94-99 | once all shorter prefixes failed, at a slash or the end, the star matches if and only if the rest matches there |
| `FnMatchLaws.MatchesIsConcatenation` | src/fnmatch.c:64-143 | for all flags a string matches if and only if it can be cut into pieces, one per token, each accepted by its token and allowed by FNM_PERIOD where it stands |
| `FnMatchLaws.AddingFlagsNeverAddsMatches` | src/fnmatch.c:64-143 | setting FNM_PERIOD or FNM_PATHNAME never turns a non-match into a match |
| `FnMatchLaws.PeriodNeedsADot` | src/fnmatch.c:86-118 | FNM_PERIOD makes no difference to strings without a period |
| `FnMatchLaws.LeadingDotExplicit` | src/fnmatch.c:86-135 | under FNM_PERIOD a leading period is matched only by a period or by a bracket that lists one |
| `BracketLaws.BracketMeans` | src/fnmatch.c:6-62 | every bracket spelled from members, ranges and escapes, plain, with '!' or with '^', matches exactly the one-byte strings it should, under all flags |
| `BracketLaws.RangeMeans` | src/fnmatch.c:25-37 | "[x-y]" is the bytes from x to y |
| `BracketLaws.OneMeans` | src/fnmatch.c:6-43 | "[x]" is x alone and "[!x]" every other byte |
| `BracketLaws.NegationFlips` | src/fnmatch.c:11-42 | for every body closed by the last bracket, exactly one of the bracket and its negation matches a byte that no flag excepts; '^' acts as '!' |
| `BracketLaws.WildcardsMean` | src/fnmatch.c:84-111 | "?" is one byte and "*" any string, without slashes under FNM_PATHNAME and without a leading period under FNM_PERIOD |
| `PeriodRule.CodedIsLang` | src/fnmatch.c:64-143 | one of the two readings of a pattern is the language fnmatch decides |
| `PeriodRule.SegmentsOf` | src/fnmatch.c:90-116 | under FNM_PATHNAME both readings read a string segment by segment, the slashes of the string against those of the pattern |
| `PeriodRule.EscapedSlashBetrays` | src/fnmatch.c:72-82 | a pattern with an escaped '/' in front of a wildcard, if it matches anything, also matches a leading period behind that '/' |
| `PeriodStars.LaterStarBetrays` | src/fnmatch.c:94-118 | a '*' that is not at a start and stands in front of a wildcard that minds periods: a string that should match is refused, if any should match |
| `PeriodStars.FirstStarWitness` | src/fnmatch.c:94-118 | the same for a '*' at a start that is not excused |
| `PeriodStars.SlideLeft` | src/fnmatch.c:94-99 | the tokens behind an excused '*' can be moved left over periods to a byte that is none |
| `PeriodStars.ExcusedRead` | src/fnmatch.c:84-100 | so the code matches whatever should match behind it |
| `PeriodExact.SafeSegments` | src/fnmatch.c:137-138 | the condition on the '*' holds of a pattern if and only if it holds of its segments |
| `PeriodExact.RuleKept` | src/fnmatch.c:64-143 | string by string: what should match matches under the first condition, what matches should match under the second |
| `PeriodExact.StrictExactly` | src/fnmatch.c:67-99 | for all patterns and flags, every C string that should match matches if and only if every '*' in front of a wildcard that minds periods is excused, or FNM_PERIOD is not set, or no C string should match |
| `PeriodExact.LenientExactly` | src/fnmatch.c:64-143 | for all patterns and flags, every C string that matches should match if and only if no escaped '/' stands in front of a wildcard under FNM_PATHNAME, or FNM_PERIOD is not set, or no C string matches |
| `PeriodExact.RuleExactly` | src/fnmatch.c:64-143 | code and rule agree on all C strings if and only if both conditions hold, or nothing matches either way |
| `PeriodExact.EscapedSlashOverlooked` | src/fnmatch.c:72-82 | the escaped '/' followed by '?' matches "/." under FNM_PATHNAME and FNM_PERIOD |
| `PeriodExact.LaterStarHelps` | src/fnmatch.c:94-99 | in "*?*" the first '*' stands in front of '?' and is excused |
| `PeriodExact.PeriodRestartsAfterStar` | src/fnmatch.c:67-99 | "*?" under FNM_PERIOD matches exactly the non-empty strings that neither start nor end with a period |
| `BracketEscapes.PlainText` | src/fnmatch.c:18-39 | without a backslash in front of the closing ']' both readings of a bracket find the same ranges |
| `BracketEscapes.BackslashTells` | src/fnmatch.c:18-40 | with one, the code finds other ranges or no end |
| `BracketEscapes.BracketExactly` | src/fnmatch.c:6-62 | the two readings of a bracket agree if and only if it is never closed or has no backslash in front of its first closing ']' |
| `BracketEscapes.NoescapeExactly` | src/fnmatch.c:64-143 | under FNM_NOESCAPE the pattern has the tokens it should have if and only if that holds of all its brackets |
| `BracketEscapes.SettledMatches` | src/fnmatch.c:64-143 | such a pattern matches under FNM_NOESCAPE exactly the strings it should |
| `BracketEscapes.QuotedClose` | src/fnmatch.c:21-40 | the bracket that should hold one backslash refuses it |
| `BracketEscapes.AgreeingMatches` | src/fnmatch.c:64-143 | a pattern whose brackets end in the same place and hold the same bytes in both readings matches under FNM_NOESCAPE exactly the strings it should |
| `BracketEscapes.SettledAgrees` | src/fnmatch.c:6-62 | that condition is weaker than the one for equal tokens |
| `BracketEscapes.DoubledBackslash` | src/fnmatch.c:21-27 | a doubled backslash is read differently and holds the same bytes |
| `FnMatchLaws.GlobHasMeta` | src/compat.c:956-965 | whether an unescaped '*', '?' or '[' occurs |
| `EscapeLaws.HasMetaExactly` | src/compat.c:956-965 | a pattern has a metacharacter if and only if some '*', '?' or '[' has an even run of backslashes in front, or any run under GLOB_NOESCAPE |
| `EscapeLaws.PlainIsLiteral` | src/compat.c:956-974 | text with none of '*', '?', '[' and backslash is literal and its own unescaped form |
| `EscapeLaws.UnescapeNothing` | src/compat.c:968-974 | under GLOB_NOESCAPE nothing is dropped from any text |
| `FnMatchLaws.GlobUnescape` | src/compat.c:968-974 | the buffer gets the text without its escaping backslashes and a NUL, and is overrun if and only if they do not fit |
| `FnMatchLaws.FastPathAgrees` | src/compat.c:1132-1142 | for a pattern without metacharacters, fnmatch accepts exactly the unescaped text if and only if that text is 7-bit |
| `FnMatchLaws.QuotedNameMatchesItself` | src/fnmatch.c:72-82 | a 7-bit name with every byte escaped is a pattern for that name alone |
| `DirTree.PathNamesBack` | src/compat.c:982-1003 | the names joined into a path are the names the path resolves by |
| `DirTree.PathText` | src/compat.c:982-1003 | the text of a path is its names with one slash between them, and one in front if it is absolute |
| `DirTree.ResolvePath` | src/compat.c:982-1003 | resolving a joined path walks its names from the root or the working directory |
| `GlobLevels.AcceptsNameIsFnmatch` | src/compat.c:1098-1137 | for 7-bit components comparing literally or with fnmatch is the same |
| `GlobLevels.LevelSound` | src/compat.c:1090-1163 | after each component the list holds only paths whose every name is accepted, each once |
| `GlobLevels.LevelComplete` | src/compat.c:1090-1163 | after each component no such path is missing that the next component could continue |
| `Glob.Vec.Push` | src/compat.c:941-954 | appends, or refuses at 1024 entries and leaves the vector alone |
| `Glob.GlobJoin` | src/compat.c:982-1003 | the joined path, or a failure if it needs more than 1024 bytes |
| `Glob.SplitPattern` | src/compat.c:1047-1066 | the components are the pieces between unescaped slashes, empty ones dropped except the first |
| `EscapeLaws.PiecesExactly` | src/compat.c:1047-1066 | the pieces joined by slashes are the pattern again, no unescaped slash is inside a piece, and none of those between is escaped |
| `Glob.TryEntry` | src/compat.c:1105-1129 | one directory entry adds its path if and only if it is accepted, fails only when the vector is full |
| `Glob.ScanDir` | src/compat.c:1099-1131 | the entries of one directory add exactly the accepted paths, in directory order |
| `Glob.ProbeLiteral` | src/compat.c:1132-1157 | a literal component adds the one path it names if that exists and, before the last level, is a directory |
| `Glob.ExpandLevel` | src/compat.c:1098-1161 | one level maps the list of paths to the list of their accepted continuations |
| `Glob.RunLevels` | src/compat.c:1090-1163 | the loop over the components yields the last level, or fails if and only if some level has more than 1024 paths |
| `Glob.Expand` | src/compat.c:1036-1172 | the metacharacter branch returns exactly the last level |
| `Glob.LastLevel` | src/compat.c:1090-1172 | the last level, as strings, is without repetition exactly the set of paths of the tree that the pattern selects |
| `Glob.Glob` | src/compat.c:1005-1218 | returns without repetition exactly the existing paths whose every name is accepted by its component; GLOB_NOMATCH only if there are none, GLOB_NOSPACE if and only if a level overflows; a pattern without metacharacters is returned unescaped, or overruns its buffer if and only if it has 1024 bytes or more; in particular a pattern of fewer bytes without '*', '?', '[' and backslash is returned as it stands |
| `Rand.Generator.Srand` | src/stdlib.c:286-288 | the seed becomes the state |
| `Rand.Generator.Rand` | src/stdlib.c:281-284 | the n-th call after seeding moves to the n-th state and returns its output |
| `Rand.StateIsAffine` | src/stdlib.c:281-284 | n calls compose to one affine map modulo 2^32 |
| `Rand.Doubling` | src/stdlib.c:281-284 | twice as many steps carry exactly one more factor of two in multiplier and offset |
| `Rand.PeriodExactly` | src/stdlib.c:279-288 | the seed recurs after n calls if and only if n is a multiple of 2^32 |
| `Rand.StatesDistinct` | src/stdlib.c:279-288 | within 2^32 calls no state occurs twice |
| `Rand.VisitsEveryState` | src/stdlib.c:279-288 | from every seed every 32-bit state is reached |
| `Rand.OutputsEquallyFrequent` | src/stdlib.c:281-284 | over one period every value from 0 to 32767 is returned exactly 131072 times |
| `Sorting.StartIs` | src/stdlib.c:414-423 | element i of a table starts at base plus i times the element size |
| `Sorting.Swap` | src/stdlib.c:402-408 | the bytes of two equal or disjoint elements change places and no other byte changes |
| `Sorting.SwapElems` | src/stdlib.c:402-423 | on the level of elements a swap exchanges two of them |
| `Sorting.Sift` | src/stdlib.c:417-422 | one round extends the partitioned part by one element |
| `Sorting.Partition` | src/stdlib.c:414-423 | the elements are permuted so that those before the returned index are at most the pivot and those behind it are greater |
| `Sorting.Qsort` | src/stdlib.c:410-431 | terminates; for every comparator the elements are permuted and nothing outside the table changes; if the comparator is a total preorder they end up sorted |
| `Sorting.SortPart` | src/stdlib.c:425-430 | the recursive call on part of a table, made only for two elements or more, sorts that part and nothing else |
| `Sorting.Assemble` | src/stdlib.c:425-430 | sorting both sides of the pivot in place sorts the whole table |
| `Sorting.Bsearch` | src/stdlib.c:387-400 | an element returned compares equal; on a sorted table NULL is returned if and only if no element compares equal |
| `Numerals.ValueOfDigits` | src/stdlib.c:252-257 | the digits of a number denote that number in every base |
| `Numerals.SkipBlanks` | src/stdlib.c:146-148 | the blanks in front are skipped |
| `Numerals.ChooseBase` | src/stdlib.c:158-168 | the base for 0 and 16 with and without a prefix, and the text behind the prefix |
| `Numerals.ReadDigits` | src/stdlib.c:170-187 | the longest run of digits of the base, its value modulo 2^32 as a signed number |
| `Numerals.StrtolMethod` | src/stdlib.c:144-194 | value and end pointer of strtol, the end being the start if there are no digits |
| `Numerals.StrtolReads` | src/stdlib.c:144-194 | blanks, a sign, zeros and digits are read back in every base, whatever follows that is no digit and, in base 16, no x |
| `StrtolLaws.HexForm` | src/stdlib.c:158-168 | in base 0 and 16, "0x" or "0X" and hexadecimal digits denote their value, behind blanks and a sign; the prefix alone is no number |
| `StrtolLaws.OctalForm` | src/stdlib.c:158-168 | in base 0 a leading "0" means octal |
| `StrtolLaws.DecimalForm` | src/stdlib.c:158-168 | in base 0, as in base 10, any other digits are decimal |
| `StrtolLaws.SignsMean` | src/stdlib.c:150-193 | a '+' changes nothing and a '-' negates |
| `StrtolLaws.NoNumber` | src/stdlib.c:188-194 | without a digit the value is 0 and nothing is consumed, blanks and sign included |
| `Itoa.WriteBackwards` | src/stdlib.c:252-257 | the digits, least significant first, and no other byte |
| `Itoa.ReverseBetween` | src/stdlib.c:261-266 | the range is reversed in place |
| `Itoa.Itoa` | src/stdlib.c:235-269 | sign and digits with a terminator, for every 32-bit value; an empty string for a bad base |
| `Itoa.StrtolUndoesItoa` | src/stdlib.c:144-269 | strtol reads back every 32-bit value in every base from 2 to 36 and stops at the terminator |
| `Itoa.TextShape` | src/stdlib.c:235-269 | a sign only for negative numbers in base 10, lower-case digits, and no leading zero |
| `Printf.Put` | src/stdio.c:64-67 | one byte is written if there is room besides the terminator |
| `Printf.WroteBoth` | src/stdio.c:107-324 | two bounded writes in a row are one bounded write of the concatenation |
| `Printf.AtMostElevenDigits` | src/stdio.c:43-54 | a 32-bit number has at most 11 digits in base 8, 10 or 16 |
| `Printf.CollectDigits` | src/stdio.c:47-54 | the digit buffer holds the digits backwards in at most 11 of its 32 slots |
| `Printf.FormatNum` | src/stdio.c:42-99 | writes the padded number, cut to the room that is left |
| `PrintfLaws.NumTextShape` | src/stdio.c:60-98 | a formatted number is blanks, sign, zeros, digits, blanks |
| `Numerals.DigitsShape` | src/stdio.c:43-54 | a number has no leading zero, and its letters are of one case |
| `FormatLaws.PaddedIsFlush` | src/stdio.c:195-210 | text fills its field exactly: length, side, and blanks elsewhere |
| `FormatLaws.NumTextIsFlush` | src/stdio.c:60-98 | a number fills its field: zeros between sign and digits exactly under '0' without '-', blanks otherwise |
| `FormatLaws.DirectiveRead` | src/stdio.c:125-172 | every directive reads as it is written: flags, width, precision, length modifiers, conversion |
| `FormatLaws.StarRead` | src/stdio.c:135-144 | a '*' takes the width from the arguments, a negative one meaning '-' |
| `FormatLaws.StarPrecisionRead` | src/stdio.c:151-165 | a '*' behind the '.' takes the precision from the arguments, a negative one meaning none |
| `FormatLaws.StringPrints` | src/stdio.c:185-212 | %s writes the first bytes of the string, as many as the precision allows, in a field of the width |
| `FormatLaws.NullPrints` | src/stdio.c:185-212 | a NULL string prints as "(null)" |
| `FormatLaws.CharPrints` | src/stdio.c:175-184 | %c writes one byte in a field of the width |
| `FormatLaws.NumberPrints` | src/stdio.c:213-246 | d, i, u, o, x and X write sign and digits in their base and case in a field of the width, under all flags |
| `FormatLaws.OtherPrints` | src/stdio.c:107-322 | "%%" is a percent sign, and a letter that is no conversion prints itself and takes no argument |
| `FormatLaws.DirectivesJoin` | src/stdio.c:107-324 | directives take their arguments in order, and what they write is joined |
| `PrintfLaws.StrtolUndoesConversion` | src/stdio.c:213-246 | strtol in the base of the conversion undoes d, i, u, x, X and o under any width and flags; only blanks are left |
| `Numerals.ReadDecimal` | src/stdio.c:145-148 | the decimal number in front and what follows it |
| `Vsnprintf.ReadFlags` | src/stdio.c:125-133 | the flags seen, a '-' overruling a '0' |
| `Vsnprintf.ReadField` | src/stdio.c:135-149 | a width or precision, from the format or from an argument |
| `Vsnprintf.ReadSpec` | src/stdio.c:125-172 | flags, width, precision and length modifiers of a directive |
| `Vsnprintf.PutPadded` | src/stdio.c:175-212 | a string padded to its width on either side, cut to the room that is left |
| `Vsnprintf.PutSigned` | src/stdio.c:213-226 | the signed conversion, INT_MIN included |
| `Vsnprintf.PutSpec` | src/stdio.c:174-322 | the text of one directive, cut to the room that is left |
| `Vsnprintf.Round` | src/stdio.c:107-324 | one turn of the loop writes the next piece of the full text and goes on behind it |
| `Vsnprintf.Vsnprintf` | src/stdio.c:101-328 | exactly the first min(size - 1, length) bytes of the unbounded text, then a NUL, nothing else changed; returns the number of bytes in front of the NUL |
| `Scanf.ReadConversion` | src/compat.c:1258-1287 | suppression, width, size and letter of a directive |
| `Scanf.TakeWord` | src/compat.c:1314-1329 | the bytes up to a blank or the width |
| `Scanf.DoConvert` | src/compat.c:1288-1363 | what one directive stores and where the input goes on, or that scanning stops |
| `Scanf.Vsscanf` | src/compat.c:1230-1366 | the number of matches and everything stored, in order |
| `ScanLaws.ScanUndoesPrint` | src/compat.c:1334-1362 | every 32-bit number printed under d, i, u, x or X is stored again by the same conversion |
| `ScanLaws.PrefixedScans` | src/compat.c:1334-1362 | %i takes the base from the prefix; %x takes a "0x" or does without |
| `ScanLaws.NarrowScans` | src/compat.c:1334-1362 | h keeps the value modulo 2^16, hh modulo 2^8, l and ll all of it |
| `ScanLaws.WordScans` | src/compat.c:1314-1329 | %s stores the bytes up to the next blank, and no more than the width |
| `ScanLaws.CharsScan` | src/compat.c:1296-1309 | %c stores the next bytes as they are, one or as many as the width |
| `ScanLaws.CountScans` | src/compat.c:1288-1294 | %n stores the number of bytes consumed and is no match |
| `ScanLaws.SuppressedScans` | src/compat.c:1258-1363 | a '*' stores nothing, counts and moves on as the directive without it |
| `ScanLaws.TextScans` | src/compat.c:1243-1248 | other text must be there as it stands, and scanning ends where it is not |
| `ScanLaws.BlanksScan` | src/compat.c:1237-1241 | blanks in the format take any number of blanks, none included |
| `ScanLaws.PercentScans` | src/compat.c:1250-1256 | "%%" must meet a percent sign |
| `ScanLaws.ScanThen` | src/compat.c:1258-1363 | after a directive the rest of the format is matched against the rest of the input, and the matches and stores add up |
| `ScanLaws.MismatchEnds` | src/compat.c:1311-1341 | a number that is not there, or an input that is all blank, ends the scan |
| `ScanLaws.OtherScans` | src/compat.c:1311-1363 | a conversion vsscanf does not have skips blanks, stores nothing and is no match |
| `ScanPrint.RenderPrinted` | src/stdio.c:101-226 | the text vsnprintf makes of a format of text, %% and %d |
| `ScanPrint.SscanfUndoesSnprintf` | src/compat.c:1230-1366 | vsscanf on the untruncated output with the same format stores every value and returns their number, INT_MIN included |
| `ScanExact.SpoilerFails` | src/compat.c:1334-1362 | a format with a %d followed directly by a digit or a %d has values that do not come back |
| `ScanExact.RecoversExactly` | src/compat.c:1230-1366 | a format of text, %% and %d recovers all lists of values if and only if no %d is followed directly by a digit or another %d |
| `Net.OrDisjoint` | src/net.c:19-24 | or-ing fields that do not overlap adds them |
| `Net.HtonlReverses` | src/net.c:19-24 | htonl reverses the four bytes |
| `Net.ScanPart` | src/net.c:47-71 | one part of an address: prefix, digits, how many were counted |
| `Net.InetAton` | src/net.c:39-107 | the one- to four-part forms, with every rejection |
| `Net.InetNtoa` | src/net.c:117-122 | the dotted text always fits the 18-byte buffer, with its terminator |
| `Net.PartOfOctet` | src/net.c:47-73 | a printed octet is read back, and counts no digits if and only if it is 0 |
| `Net.AtonOfNtoa` | src/net.c:39-122 | inet_aton returns the address inet_ntoa printed if and only if no octet is zero, and rejects it otherwise |
| `NetLaws.NumeralRead` | src/net.c:47-71 | a decimal, "0" octal or "0x" hexadecimal number is read to its end and denotes its value modulo 2^32 |
| `NetLaws.AtonOfNumerals` | src/net.c:39-107 | up to four dotted numbers in any notation give the address their values assemble to; a fifth, a byte that is no blank behind them, or a dot without a number is refused |
| `NetLaws.OnePart` | src/net.c:85-104 | "a": the bytes of the address are those of the number, most significant first |
| `NetLaws.TwoParts` | src/net.c:88-91 | "a.b": one byte and a number of three; refused if and only if b is larger |
| `NetLaws.ThreeParts` | src/net.c:92-95 | "a.b.c": two bytes and a number of two; refused if and only if c is larger; what b has above one byte is or-ed into the first |
| `NetLaws.FourPartsMean` | src/net.c:96-99 | "a.b.c.d": the four bytes; refused if and only if one is larger than 255 |
| `Getopt.Parser.constructor` | src/getopt.c:5-10 | the initial state |
| `Getopt.Parser.Next` | src/getopt.c:12-59 | one call delivers the next event of a plain recursive parse, or -1 with optind at the first operand, and keeps optpos inside its word |
| `Getopt.Parser.Letter` | src/getopt.c:25-58 | the letter under the cursor: unknown, plain, with attached, separate or missing argument |
| `Getopt.Parser.Advance` | src/getopt.c:53-56 | on to the next letter of the cluster or the next word |
| `Getopt.Run` | src/getopt.c:12-59 | for every argv and option string, calling until -1 terminates and shows exactly the events of the plain parse, in order, up to the first option byte 0xFF; if there is none, optind is left at the first operand |
| `Getopt.HiddenOption` | src/getopt.c:25-58 | an option byte 0xFF is returned as -1, so nothing of the line is seen |
| `Getopt.RunsAreComplete` | src/getopt.c:12-59 | every option of every command line is seen if and only if the option string does not list 0xFF |
| `Getopt.ParseOfSpelling` | src/getopt.c:12-59 | spelling options and then parsing them gives the options back, "--" shielding any operands |
| `GetoptLaws.MentionMeans` | src/getopt.c:25-36 | a letter mentioned in the option string is an option, and takes an argument if and only if a colon follows it there |
| `GetoptLaws.UnmentionedIsUnknown` | src/getopt.c:25-34 | any other letter, and a colon, is reported as unknown with '?' and passed over |
| `GetoptLaws.AttachedOrApart` | src/getopt.c:36-44 | "-cARG" and "-c ARG" report the same option with the same argument, whatever ARG is |
| `GetoptLaws.ArgumentMissing` | src/getopt.c:45-50 | a missing argument is reported as ':' if the option string begins with one, otherwise as '?' |
| `GetoptLaws.Bundled` | src/getopt.c:25-58 | letters without an argument in one word report in order |
| `GetoptLaws.BundleUnpacks` | src/getopt.c:25-58 | "-abc" reports what "-a -bc" reports |
| `GetoptLaws.OperandsFollow` | src/getopt.c:17-23 | options end at "--", at "-" and at every word without a '-' in front, and only "--" is dropped |
| `Environ.Environment.Search` | src/stdlib.c:311-315 | the index of the first entry for the name, or of the terminator |
| `Environ.Environment.Getenv` | src/stdlib.c:307-317 | the value of the first entry for the name, which is map lookup |
| `Environ.Environment.Setenv` | src/stdlib.c:319-360 | succeeds exactly when the name is good and the memory needed is there, so always with a good name if both requests for memory are served; then the entry is kept, replaced in place or appended; a failure changes nothing |
| `Environ.Environment.Append` | src/stdlib.c:349-359 | a longer table with the same entries and the new one |
| `Environ.Environment.Unsetenv` | src/stdlib.c:372-385 | the first entry for the name is removed, the others close up |
| `Environ.Environment.CloseGap` | src/stdlib.c:378-380 | the entries behind a slot move forward by one, the terminator included |
| `Environ.Environment.Putenv` | src/stdlib.c:362-370 | acts as setenv on the two halves, succeeds whenever there is a name and both requests for memory are served, and leaves its argument as it found it |
| `Environ.Environment.PutenvEntry` | src/stdlib.c:362-370 | given the table's own i-th entry, putenv passes over it in its search and puts a copy behind, then mends the entry |
| `Environ.PutSlotDuplicates` | src/stdlib.c:362-370 | that adds the entry once more, and removing the name then leaves it defined |
| `Environ.PutKeepsDistinct` | src/stdlib.c:362-370 | putenv keeps the names distinct if and only if its argument is not an entry of the table |
| `Environ.Perform` | src/stdlib.c:319-385 | setenv, unsetenv and putenv do to the table what the list functions say, or fail and do nothing |
| `Environ.PerformAll` | src/stdlib.c:305-385 | after any calls in a row, some of which may run out of memory, the names are distinct and the table is the map of the calls that succeeded |
| `Environ.Lookup` | src/stdlib.c:311-315 | the first entry for a name is the value of the map |
| `Environ.UpdateRefines` | src/stdlib.c:341-359 | on distinct names setting is map update and names stay distinct |
| `Environ.RemoveRefines` | src/stdlib.c:372-385 | on distinct names unsetting is map removal and names stay distinct |
| `Environ.RunRefinesMap` | src/stdlib.c:305-385 | through every run of successful setenv, unsetenv and putenv calls from distinct names the list of entries is the map |
| `Environ.OthersKeepTheirPlace` | src/stdlib.c:341-385 | setting moves no other entry; unsetting keeps all others and their order |
| `RealPath.Realpath` | src/compat.c:282-313 | NULL, too long, absolute and relative paths, and the normalised result |
| `RealPath.CollapseLoop` | src/compat.c:298-307 | the loop computes the normal form and never fills its buffer |
| `RealPath.ComponentsKept` | src/compat.c:301-307 | the components other than "" and "." survive in order, ".." among them |
| `RealPath.NormalForm` | src/compat.c:301-307 | the result is absolute, has no "//", no "/./" and no final "/.", and normalising again changes nothing |
| `RealPath.TrailingSlashKept` | src/compat.c:301-307 | the root apart, the result ends in a slash if and only if the path does |
| `RealPath.CleanPathDetermined` | src/compat.c:301-307 | a clean absolute path is determined by its components and its ending |

## Left out

- Syscall wrappers, exec, sockets, terminals, poll and select, resource and scheduling stubs, time, passwd, signal and errno tables: input and output, or constants.
- Start-up code and setjmp: machine code.
- `%f` in vsnprintf and strtod: floating point.
- `%p` in vsnprintf: it drops its "0x" when little room is left, so truncated output is not a prefix of the full output.
- `long long` in vsnprintf and vsscanf: the code reads and parses `long` only.
- string.c beyond memset and memcpy: the model uses Dafny's sequences where the code calls strlen, strchr, strncmp and their like.
- Allocator.Heap.Malloc: requests from 0xFFFFFFE9 to 0xFFFFFFF8 are excluded, because there the code writes a header past the break it asked for; RequestArithmetic shows that these are the only ones.
- Allocator.Heap.Calloc: excludes products above 0xFFFFFFE8 that still fit in 32 bits, where memset would write beyond the block.
- Allocator.Heap.Realloc: excludes sizes above 0xFFFFFFE8 for the same reason.
- Allocator.Heap.Free: pointers that are stale (already freed) or that have a forged magic in front are excluded; NULL, live pointers and pointers without the magic are covered.
- Allocator.Heap.Sbrk: the break only moves up, and nobody else moves it.
- Glob.Glob: GLOB_APPEND, GLOB_NOCHECK, GLOB_MARK and GLOB_ONLYDIR, patterns that end in a slash, patterns of more than 64 components, and literal components that are "." or ".." or contain an escaped slash are not modelled; memory never runs out inside glob; the tree has no symbolic links and does not change during the call; a directory lists all its entries.
- BracketEscapes.NoescapeExactly: exact for the tokens; different tokens may denote the same strings, and for those AgreeingMatches gives a sufficient condition only.
- Environ.Environment.PutenvEntry: covers an argument that is one entry of the table; an argument that points into the middle of an entry, or a string that two slots share, is not modelled.
- Sorting.Qsort: the comparator sees only the bytes of its two elements, so a comparator that changes the table or keeps state is not modelled.
- Vsnprintf.Vsnprintf: formats whose arguments have the wrong type, and widths or precisions beyond `int`, are excluded; a NULL buffer is the case of size 0.
- Scanf.Vsscanf: formats that end inside a directive are excluded, because the code then reads beyond the terminator.
- Net.InetNtoa: the static buffer is a fresh array, so the sharing of it between calls is not captured.
- Getopt.Run: a NULL word in front of the end of argv is not modelled; nothing is printed for errors, as in the code.
- Environ.Environment.Getenv: the pointer returned is modelled by the text it points to, so writing through it is not captured.
- Environ.Environment.Setenv: the old entry and the old table are dropped, not freed, as in the code; only their contents are modelled.
- RealPath.Realpath: the caller's buffer and strdup are modelled by the text returned; ".." is kept, as in the code.
