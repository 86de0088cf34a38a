# Verified models of Advent of Code kernels

This project models, in Dafny, the small pure kernels inside a collection of
Advent of Code solutions written in Go and Python, and proves what each of
them computes. The centre is the linear-time longest-palindrome scan of
2023/13: the Python version `fastLongestPalindromes` and its quadratic oracle
(`fastpal.py`), plus its Go port `fastLongestPalindrome` with the mirror-line
scan and the 32x32 bit matrix of `aoc13.go`. Around it sit one module per
solution file:

- Spans: interval merging and an interval tree (2025/5).
- UnionFind: union-find with path compression (2025/8).
- Snafu: balanced base-5 addition (2022/25).
- Decimal: decimal conversion and the repeated-id tests (2025/2).
- Joltage: greedy largest subsequence (2025/3).
- Permutation: next permutation (2019/7).
- Extrapolate: finite-difference extrapolation (2023/9).
- Lenses: the HASH and the lens boxes (2023/15).
- Network: node hashing, binary gcd and lcm (2023/8).
- Machines: floor/ceiling division, extended gcd, vector kernels and the light-toggling search (2025/10).
- Dial: the safe dial (2025/1).
- Lanternfish: the fish census (2021/6).
- Reports: the level reports (2024/2).
- Calibration: the equation checks (2024/7).
- Springs: the arrangement-count DP (2023/12).
- Towels: the trie and the split count (2024/19).
- Snailfish: the flat snailfish numbers (2021/18).
- Crates: the crate stacks (2022/5).
- DiskMap: the free-list disk allocator (2024/9).
- Dirac: Dirac dice (2021/21).
- Bits and Races: `log2`, `isqrt` and the race count (2023/6).
- Mixing and Grove: the bin-based mixing of 2022/20 and its reference.
- Stones: the stone blinking counter (2024/11).
- Aplenty: the part-rating hypercubes (2023/19).
- Ropes: the rope bridge (2022/9).
- Claw: Cramer's rule (2024/13).
- Bingo: the bingo cards (2021/4).
- Camel: the camel-card hands (2023/7).
- Reactor: the k-d tree of reactor cuboids (2021/22).
- Uint128: the 128-bit integer (2023/14).
- Packets: the packet evaluator (2021/16).
- Alu: the MONAD stack and `pow` (2021/24).
- Market: the monkey market (2024/22).

Four helper modules carry no rows:
- Wrappers: `Option` and `Result`.
- GoInt: Go's truncating `/` and `%`, and fixed-width wrap-around.
- Binary: bit strings and Go's bitwise operators.
- Int64: Go's wrapping 64-bit `int`.

Go's fixed-width integers are modelled explicitly where the source relies on
them, through `Int64.Wrap`, bv64, bv32 or an explicit modulus. Where the model uses
unbounded integers instead, the section "Left out" says so. Input parsing,
printing, concurrency and the `main` loops that only read stdin are not
modelled.

## Model

| member | source | states |
|---|---|---|
| Palindromes.Expand | 2023/13/fastpal.py:143-151 | the widening loop returns a range around [s, e) with the same centre, still inside the sequence |
| Palindromes.ExpandMaximal | 2023/13/fastpal.py:146-149 | started on a palindrome, the loop stops at a palindrome that cannot be widened by one more element on each side |
| Palindromes.NaiveLongestPalindromes | 2023/13/fastpal.py:117-153 | the quadratic oracle returns 2*len(seq)+1 entries, and the first and last are 0 |
| Palindromes.NaiveIsRadius | 2023/13/fastpal.py:139-151 | entry i is the length e - s of the range that the widening loop reaches from centre i |
| Palindromes.RadiusIsMax | 2023/13/fastpal.py:143-151 | from centre i the loop starts at i//2 and i//2 + i%2 and ends at a maximal palindrome with s + e == i |
| Palindromes.RadiusLongest | 2023/13/fastpal.py:119-125 | that length is the longest palindrome centred at i (LongestAt: a palindrome of that length exists and no longer one does) |
| Palindromes.NaiveLongest | 2023/13/fastpal.py:119-125 | every entry of the oracle is the longest palindrome length at its centre |
| Palindromes.DecodeIsPalindrome | 2023/13/fastpal.py:127-128 | seq[s:s+l[i]] with s = i//2 - l[i]//2 lies inside the sequence, has length l[i] and is a palindrome |
| Palindromes.LongestAtUnique | 2023/13/fastpal.py:119-125 | a centre has only one longest palindrome length |
| Palindromes.LongestArrayUnique | 2023/13/fastpal.py:2-4 | any list of 2n+1 longest lengths equals the oracle, so "behaves identically" is a property of the entries alone |
| Palindromes.MaxPalIsLongest | 2023/13/fastpal.py:18-23 | a palindrome that cannot be extended contains every palindrome with the same centre |
| Palindromes.MaxPalUnique | 2023/13/fastpal.py:18-23 | two unextendable palindromes with the same centre are the same range |
| Palindromes.Extend | 2023/13/fastpal.py:20-23 | when i > palLen and seq[i-palLen-1] == seq[i], seq[i-palLen-2 : i+1] is again a palindrome (first loop invariant kept) |
| Palindromes.Single | 2023/13/fastpal.py:84-85 | after palLen = 1; i += 1 the one-element range is a palindrome |
| Palindromes.StopIsLongest | 2023/13/fastpal.py:20-27 | when the extension test fails, the appended palLen is the longest palindrome at centre 2i - palLen |
| Palindromes.Shrink | 2023/13/fastpal.py:10 | a centred sub-range of a palindrome is a palindrome |
| Palindromes.MirrorRange | 2023/13/fastpal.py:36-39 | a palindrome inside the last palindrome has a mirrored copy on the other half |
| Palindromes.MirrorInside | 2023/13/fastpal.py:72-77 | when l[j] stays clear of the left edge, the mirrored centre has the same longest length |
| Palindromes.MirrorBeyond | 2023/13/fastpal.py:73-77 | when l[j] reaches past the left edge, the mirrored centre's longest length is d |
| Palindromes.MirrorEdge | 2023/13/fastpal.py:52-56 | when l[j] == d the mirrored palindrome shares the right edge, and at the end of the sequence it is the longest |
| Palindromes.MirrorLongest | 2023/13/fastpal.py:45-77 | the appended min(d, l[j]) is the longest length at the mirrored centre unless l[j] == d inside the sequence |
| Palindromes.AllLongestAt | 2023/13/fastpal.py:11-15 | every entry collected so far is the longest length at its centre |
| Palindromes.AppendLongest | 2023/13/fastpal.py:25-27 | appending palLen keeps "every entry is longest" and len(l) == 2i - palLen + 1 |
| Palindromes.AppendMirror | 2023/13/fastpal.py:77 | appending min(d, l[j]) keeps "every entry is longest" |
| Palindromes.SharedEdge | 2023/13/fastpal.py:63-64 | when l[j] == d the new palLen = d names a palindrome ending at i (loop invariant restored) |
| Palindromes.AllLongestIsNaive | 2023/13/fastpal.py:2-4 | a complete list of longest lengths equals the oracle |
| Palindromes.MirrorBack | 2023/13/fastpal.py:41-85 | the inner for/else: it either breaks with a new palLen < old palLen sharing the right edge, with len(l) == 2i - palLen, or fills l up to 2i + 1 entries; every appended entry is the longest at its centre |
| Palindromes.FinishScan | 2023/13/fastpal.py:87-107 | the tail loop completes l to 2*len(seq)+1 entries, each the longest at its centre, equal to the oracle |
| Palindromes.FastLongestPalindromes | 2023/13/fastpal.py:1-109 | for every sequence the linear scan returns exactly the oracle's list: length 2n+1, every entry the longest palindrome at its centre |
| Incidence.FastLongestPalindrome | 2023/13/aoc13.go:209-308 | the Go port with its labelled continue SCAN returns the same list as the oracle for every uint32 sequence |
| Incidence.YabadabadooExample | 2023/13/aoc13.go:17-23 | on the commented input 24 0 1 0 3 0 1 0 3 14 14 the result is 0 1 0 1 0 3 0 1 0 7 0 1 0 5 0 1 0 1 0 1 2 1 0 |
| Incidence.PivotTest | 2023/13/aoc13.go:127-130 | the test l-half == 0 or r+half == H-1 holds exactly when the palindrome at an even i reaches row 0 or row H-1 |
| Incidence.Scan | 2023/13/aoc13.go:120-147 | found iff some even i with s[i] > 1 touches an edge; the matches are exactly the scores of those pivots (r*100 for RC, H-r for CR) in scan order; ([-1], false) when none |
| Incidence.CollectReflections | 2023/13/aoc13.go:126-140 | the loop's match list after n entries holds exactly the scores of the reflecting pivots below n, in order |
| Incidence.Get | 2023/13/aoc13.go:336-338 | get returns 0 or 1, and 0 for a column past the word |
| Incidence.Set | 2023/13/aoc13.go:331-334 | set touches only row j, and a shift of 32 or more leaves the array unchanged |
| Incidence.Clear | 2023/13/aoc13.go:340-343 | clear touches only row j, and a shift of 32 or more leaves the array unchanged |
| Incidence.Flip | 2023/13/aoc13.go:345-348 | flip touches only row j, and a shift of 32 or more leaves the array unchanged |
| Incidence.GetSet | 2023/13/aoc13.go:331-338 | after set(j, i), get(j, i) is 1 |
| Incidence.GetSetOther | 2023/13/aoc13.go:331-338 | set(j, i) leaves every other bit of row j unchanged |
| Incidence.GetClear | 2023/13/aoc13.go:336-343 | after clear(j, i), get(j, i) is 0 |
| Incidence.GetClearOther | 2023/13/aoc13.go:336-343 | clear(j, i) leaves every other bit of row j unchanged |
| Incidence.GetFlip | 2023/13/aoc13.go:336-348 | flip(j, i) inverts get(j, i) |
| Incidence.GetFlipOther | 2023/13/aoc13.go:336-348 | flip(j, i) leaves every other bit of row j unchanged |
| Incidence.FlipFlip | 2023/13/aoc13.go:345-348 | flipping the same bit twice restores the array |
| Incidence.PassCell | 2023/13/aoc13.go:320-324 | one pass of the inner loop with block size j moves each bit (r, c) to where the block swap sends it: both indices flip bit j when they agree on it |
| Incidence.LowShiftedCell | 2023/13/aoc13.go:321-322 | on an upper row k, BA[k] ^ t takes the partner row's bit from column c ^ j |
| Incidence.HighShiftedCell | 2023/13/aoc13.go:321-323 | on a lower row k+j, BA[k+j] ^ (t << j) takes row k's bit from column c ^ j |
| Incidence.LowKeptCell | 2023/13/aoc13.go:321-322 | bits outside the mask m keep their value in row k |
| Incidence.HighKeptCell | 2023/13/aoc13.go:321-323 | bits outside the shifted mask keep their value in row k+j |
| Incidence.Steps | 2023/13/aoc13.go:318-327 | the five block sizes 16, 8, 4, 2, 1 together send cell (r, c) to (31-c, 31-r) |
| Incidence.Trans32Cell | 2023/13/aoc13.go:317-329 | trans32 puts the bit of row 31-c, column 31-r at row r, column c (a transpose about the anti-diagonal) |
| Incidence.Trans32Get | 2023/13/aoc13.go:317-338 | get(j, i) of the transposed array is get(31-i, 31-j) of the original |
| Incidence.Trans32Twice | 2023/13/aoc13.go:317-329 | trans32 applied twice is the identity |
| Incidence.NextRowSkips | 2023/13/aoc13.go:320 | k = (k + j + 1) & ^j moves to the next row whose bit j is clear and skips exactly the rows whose bit j is set, stopping at 32 |
| Incidence.MaskSteps | 2023/13/aoc13.go:318-326 | the mask starts at 0x0000FFFF and m ^= m << j after halving j yields the mask of the next pass |
| Spans.PointsIn | 2025/5/aoc5.go:104-107 | an integer is covered by a list of spans iff some span [start, end] contains it |
| Spans.RangeSize | 2025/5/aoc5.go:90 | a span covers end - start + 1 integers |
| Spans.InsertSorted | 2025/5/aoc5.go:73-76 | inserting into a start-sorted list keeps it sorted and adds exactly one element |
| Spans.SortByStart | 2025/5/aoc5.go:73-76 | the sort yields a permutation of the spans ordered by start |
| Spans.MergeSeparated | 2025/5/aoc5.go:79-99 | the merge loop emits spans that start at the first start and are sorted, disjoint and non-adjacent |
| Spans.MergePoints | 2025/5/aoc5.go:82-95 | merging overlapping or adjacent spans covers exactly the same integers |
| Spans.SeparatedCount | 2025/5/aoc5.go:90-98 | for separated spans the sum of end - start + 1 is the number of covered integers |
| Spans.SeparatedStarts | 2025/5/aoc5.go:83 | in a merged list every later span starts more than one past an earlier span's end |
| Spans.PermutedPoints | 2025/5/aoc5.go:73-76 | reordering spans does not change the covered integers |
| Spans.MergedCover | 2025/5/aoc5.go:78-101 | the merged spans are separated, cover the same integers as the input, and their widths sum to the number of covered integers |
| Spans.Cover | 2025/5/aoc5.go:68-102 | 0 and an untouched tree for no spans; otherwise the count of integers in the union, and the tree gains exactly the merged spans and stays a valid interval tree |
| Spans.Insert | 2025/5/aoc5.go:132-190 | insert adds exactly one node holding [s, e], and the root's maxEnd becomes max(old maxEnd, e) |
| Spans.InsertBelow | 2025/5/aoc5.go:158-165 | inserting a start below a bound into a left subtree keeps every start below it |
| Spans.InsertFrom | 2025/5/aoc5.go:166-174 | inserting a start at or above a bound into a right subtree keeps every start at or above it |
| Spans.InsertValid | 2025/5/aoc5.go:145-190 | insert keeps BST order by start (ties go right) and each node's maxEnd the largest end of its subtree |
| Spans.InsertAll | 2025/5/aoc5.go:91-99 | inserting the merged spans one by one adds exactly them and keeps the tree valid |
| Spans.MaxEndBounds | 2025/5/aoc5.go:177-189 | in a valid tree no end in a subtree exceeds the subtree root's maxEnd |
| Spans.MaxEndIsMax | 2025/5/aoc5.go:177-189 | maxEnd is the maximum end in its subtree: an upper bound that some stored span attains |
| Spans.HoldingNoneAbove | 2025/5/aoc5.go:216-218 | a subtree whose starts all exceed v holds no span containing v, so skipping the right subtree when start > v loses nothing |
| Spans.HoldingNoneBelow | 2025/5/aoc5.go:211-214 | a subtree whose ends are all below v holds no span containing v, so pruning by maxEnd loses nothing |
| Spans.LeftSide | 2025/5/aoc5.go:211-214 | the left-subtree test reports exactly the left subtree's spans containing v |
| Spans.RightSide | 2025/5/aoc5.go:216-218 | the right-subtree test reports exactly the right subtree's spans containing v |
| Spans.QueryHolding | 2025/5/aoc5.go:193-223 | in a valid tree the pruned traversal reports each stored span containing v, with its multiplicity |
| Spans.QueryExact | 2025/5/aoc5.go:192-223 | query(v) returns exactly the stored spans with start <= v <= end, each as often as it is stored |
| Spans.Visit | 2025/5/aoc5.go:199-219 | one iteration reports the node when it contains v and pushes the left child before the right one under the pruning tests |
| Spans.PopNode | 2025/5/aoc5.go:198-220 | popping a node and pushing its children keeps "result so far plus pending answers" equal to the full answer, and the stack's size measure shrinks |
| Spans.Query | 2025/5/aoc5.go:193-223 | the explicit-stack loop returns the recursive traversal's answer, and an empty tree (root -1) answers nothing |
| UnionFind.Root | 2025/8/aoc8.go:115-119 | following parent links from x ends at an element that is its own parent, and a root is its own root |
| UnionFind.NewDsu | 2025/8/aoc8.go:103-111 | n elements, each its own root with size 1 |
| UnionFind.MoreFuel | 2025/8/aoc8.go:117-119 | the root and the path length found do not depend on the step bound once it is large enough |
| UnionFind.CompressOne | 2025/8/aoc8.go:121-125 | pointing one element straight at its root changes no element's root and lengthens no path |
| UnionFind.Compress | 2025/8/aoc8.go:121-125 | one compression step keeps the forest and every element's root |
| UnionFind.FindRoot | 2025/8/aoc8.go:115-119 | the first loop of find returns x's root |
| UnionFind.CompressPath | 2025/8/aoc8.go:120-125 | path compression keeps the sizes, the root, and every element's root |
| UnionFind.Find | 2025/8/aoc8.go:114-127 | find returns r with parent[r] == r, the root of x, and compression changes no element's root |
| UnionFind.LinkOne | 2025/8/aoc8.go:138 | after parent[rb] = ra, an element whose root was rb now has root ra and the others keep theirs |
| UnionFind.Link | 2025/8/aoc8.go:138 | linking two roots keeps a forest with one more step of depth |
| UnionFind.Union | 2025/8/aoc8.go:130-140 | afterwards a and b have the same root; within one set nothing changes; otherwise the smaller root (ties: b's) goes under the larger, its size is added, and only the smaller set's elements change root |
| UnionFind.Dist2 | 2025/8/aoc8.go:146-149 | the squared distance is non-negative and 0 exactly on equal points |
| UnionFind.Dist2Symmetric | 2025/8/aoc8.go:146-149 | dist2(a, b) == dist2(b, a) |
| Snafu.DAdd | 2022/25/aoc25.go:38-83 | every table entry gives digits, and carry * 5 + digit equals the sum of the two input digits |
| Snafu.DAddCommutes | 2022/25/aoc25.go:77-80 | dadd is commutative because it sorts its inputs before the lookup |
| Snafu.ValueUpdate | 2022/25/aoc25.go:89-94 | overwriting digit i changes the value by the digit difference times 5^i |
| Snafu.ValueAppend | 2022/25/aoc25.go:105-109 | appending a digit at the top adds digit * 5^len |
| Snafu.Digit | 2022/25/aoc25.go:87-97 | one column adds a[i], the carry and (while b has digits) b[i]; digit + 5 * new carry equals that sum |
| Snafu.Column | 2022/25/aoc25.go:86-98 | one loop turn keeps value(so far) + 5^(i+1) * (carry + rest of b) equal to value(a) + value(b) |
| Snafu.Add | 2022/25/aoc25.go:31-112 | the value of add(a, b) is value(a) + value(b); the result has the longer length, or one more digit for a final carry |
| Snafu.MkSnafu | 2022/25/aoc25.go:114-120 | mksnafu stores the digits reversed |
| Snafu.String | 2022/25/aoc25.go:12-18 | String prints the stored digits in reverse order |
| Snafu.StringMkSnafu | 2022/25/aoc25.go:12-120 | String(mksnafu(s)) == s |
| Decimal.DigitChar | 2025/2/aoc2.go:86 | byte(n%10) + '0' is a digit character whose value is n%10 |
| Decimal.Atoi | 2025/2/aoc2.go:64-71 | atoi of k digits reads the number 10*n + digit left to right, which is below 10^k |
| Decimal.Digits | 2025/2/aoc2.go:84-88 | the digit loop produces a string of digits with no leading zero that atoi reads back as n, empty exactly for 0 |
| Decimal.Itoa | 2025/2/aoc2.go:73-90 | itoa(0) is "0"; a negative n gives the empty slice; otherwise 1 to MaxDigits digits, no leading zero, and atoi gives n back |
| Decimal.LimitIsPow10 | 2025/2/aoc2.go:21 | the buffer size bound is 10^MaxDigits with MaxDigits = 10 |
| Decimal.DigitsAtoi | 2025/2/aoc2.go:66-88 | a digit string without a leading zero is what the digit loop produces for its value |
| Decimal.ItoaAtoi | 2025/2/aoc2.go:66-90 | itoa(atoi(s)) == s for every canonical decimal string of at most MaxDigits digits |
| Decimal.AtoiItoa | 2025/2/aoc2.go:66-90 | atoi(itoa(n)) == n for 0 <= n < 10^10, and itoa(n) is canonical |
| Decimal.ItoaExamples | 2025/2/aoc2_test.go:14-19 | itoa matches the test vectors 0, 1, 9, 10, 99, 100 |
| Decimal.ItoaMoreExamples | 2025/2/aoc2_test.go:20-22 | itoa matches the test vectors 123, 1000, 12345 |
| Decimal.ItoaLongExample | 2025/2/aoc2_test.go:23 | itoa(9876543210) == "9876543210" |
| Decimal.DoubledIff | 2025/2/aoc2.go:43-47 | the part 1 test (even length, equal halves) holds exactly for strings t + t |
| Decimal.DoubledWindow | 2025/2/aoc2.go:50-52 | the window of length len(s) at k in the doubled buffer is the rotation of s by k |
| Decimal.RotationFound | 2025/2/aoc2.go:54-55 | a match at i inside ss[1 : 2*len(s)-1] means s equals its rotation by i+1, a proper rotation |
| Decimal.RotationOccurs | 2025/2/aoc2.go:54-55 | a proper rotation equal to s shows up as a match at k-1 inside the trimmed window |
| Decimal.SelfRotatingIff | 2025/2/aoc2.go:49-57 | the part 2 test accepts s iff some proper rotation of s equals s |
| Decimal.DoubledSelfRotating | 2025/2/aoc2.go:43-57 | every number part 1 accepts is accepted by part 2 too |
| Joltage.NewSeq | 2025/3/aoc3.go:57-65 | a new stack is empty, keeps size, and allows exactly inputSize - size removals |
| Joltage.Push | 2025/3/aoc3.go:67-80 | push pops only digits smaller than d, one removal each, stops at a digit >= d or when no removal is left, then appends d; krem never goes negative |
| Joltage.Run | 2025/3/aoc3.go:37-40 | pushing a line keeps size and the balance len(digits) - krem grows by the line length |
| Joltage.RemovalsBound | 2025/3/aoc3.go:34-65 | after the whole line, krem >= 0 and exactly size + krem digits are kept, so at least size digits remain |
| Joltage.RunSubseq | 2025/3/aoc3.go:69-80 | the kept digits are a subsequence of the input, in order |
| Joltage.Largest | 2025/3/aoc3.go:83-88 | the digits val reads are exactly size long |
| Joltage.Val | 2025/3/aoc3.go:82-88 | val reads the first size digits most significant first as a decimal number |
| Joltage.Track | 2025/3/aoc3.go:69-80 | every subsequence of the right length is lexicographically at most the kept prefix (the greedy invariant) |
| Joltage.PopStep | 2025/3/aoc3.go:72-76 | a pop of a smaller trailing digit never loses a lexicographically larger choice |
| Joltage.KeepStep | 2025/3/aoc3.go:78-79 | when no pop applies, the digit is simply appended |
| Joltage.LargestIsLargest | 2025/3/aoc3.go:49-68 | the kept size digits form a subsequence of the line that is lexicographically largest among all subsequences of that length |
| Joltage.LargestValue | 2025/3/aoc3.go:83-88 | the value val returns is the largest number any size-digit subsequence of the line spells |
| Joltage.LexNum | 2025/3/aoc3.go:83-88 | for equal-length digit strings, lexicographic order is numeric order |
| Joltage.NumSnoc | 2025/3/aoc3.go:85 | n = 10*n + digit appends a digit |
| Permutation.Rev | 2019/7/aoc7.go:112-117 | reverse puts element len-1-k at position k |
| Permutation.Reverse | 2019/7/aoc7.go:113-117 | the two-index swap loop computes the reversal |
| Permutation.RevRev | 2019/7/aoc7.go:113-117 | reversing twice is the identity |
| Permutation.RevMultiset | 2019/7/aoc7.go:113-117 | reversal keeps the same elements with the same multiplicities |
| Permutation.SwappedSuffix | 2019/7/aoc7.go:103-104 | after swapping the pivot with the smallest larger element, the suffix is still non-increasing |
| Permutation.SmallestLarger | 2019/7/aoc7.go:97-101 | the backward search stops at the smallest suffix element larger than arr[i] |
| Permutation.RearrangePermutes | 2019/7/aoc7.go:103-107 | swap plus suffix reversal gives a permutation of the input that is larger at the pivot |
| Permutation.TailAscending | 2019/7/aoc7.go:106-107 | after the reversal the suffix is non-decreasing, its smallest arrangement |
| Permutation.DescendingIsLargest | 2019/7/aoc7.go:92-95 | a non-increasing sequence has no lexicographically larger permutation, so returning nil there is right |
| Permutation.RearrangeIsSuccessor | 2019/7/aoc7.go:85-110 | the rearranged sequence is a larger permutation with no permutation strictly between |
| Permutation.Next | 2019/7/aoc7.go:85-110 | next returns nil iff the input is non-increasing, and otherwise its lexicographic successor among its permutations |
| Permutation.SortedIsFirst | 2019/7/aoc7.go:76-81 | a sorted start is the lexicographically smallest of its permutations, so iterating next from it visits every larger one |
| Permutation.StartIsSorted | 2019/7/aoc7.go:77 | the start [5,6,7,8,9] is sorted and not the last permutation |
| Extrapolate.IsZeroIff | 2023/9/aoc9.go:32-38 | for int64 entries, or-ing every entry gives 0 exactly when every entry is 0 |
| Extrapolate.BitsZero | 2023/9/aoc9.go:35-37 | an int64 has all-zero bits exactly when it is 0 |
| Extrapolate.Diff | 2023/9/aoc9.go:41-45 | the difference row is one shorter than its input |
| Extrapolate.DiffSnoc | 2023/9/aoc9.go:43-45 | appending x appends x - last to the difference row |
| Extrapolate.DiffCons | 2023/9/aoc9.go:43-45 | prepending x prepends first - x to the difference row |
| Extrapolate.Depth | 2023/9/aoc9.go:40-53 | next recurses a number of levels between 1 and len(a), and the row it stops at is all zero |
| Extrapolate.ZeroDiffConstant | 2023/9/aoc9.go:47-49 | when all differences are 0 every entry equals a[0], so returning (a[0], a[0]) extends the row |
| Extrapolate.NextExtends | 2023/9/aoc9.go:40-53 | appending the right value (or prepending the left value) of next keeps the same number of difference levels ending in zeros |
| Extrapolate.NextRightUnique | 2023/9/aoc9.go:51-52 | the right value is the only value that does so |
| Extrapolate.SnocUnique | 2023/9/aoc9.go:51-52 | two extensions with all-zero differences at the same depth are equal |
| Extrapolate.Arithmetic | 2023/9/aoc9.go:40-53 | an arithmetic row with step d of at least two entries gives (a[0] - d, a[last] + d) |
| Extrapolate.ConstantNext | 2023/9/aoc9.go:47-49 | a nonzero constant row is not zero and gives (d[0], d[0]) |
| Lenses.Hash | 2023/15/aoc15.go:36-41 | the hash always lies in [0, 255] |
| Lenses.MaskIsMod | 2023/15/aoc15.go:38 | & 0xff on a non-negative value is reduction mod 256 |
| Lenses.HashExample | 2023/15/aoc15.go:36-41 | hash("") == 0, hash("H") == 200 and hash("HASH") == 52 |
| Lenses.FirstEquals | 2023/15/aoc15.go:68 | the first '=' of a step is found, with no '=' before it |
| Lenses.MakeOp | 2023/15/aoc15.go:62-73 | "name-" gives the name with value 0; "name=N" gives the text before the first '=' and the number after it; the index is kept |
| Lenses.MakeOpInverts | 2023/15/aoc15.go:62-73 | mkop reads back the label and focal length a step "name=N" or "name-" was written from |
| Lenses.Enqueue | 2023/15/aoc15.go:81-92 | a removal (value 0) only records its index under the label; an insertion is queued unless a later removal of its label is already recorded |
| Lenses.Index | 2023/15/aoc15.go:117-119 | the first slot with the label, or -1 when none has it |
| Lenses.Process | 2023/15/aoc15.go:94-115 | process lays out the surviving insertions (replace in place, else append) and sums (box+1)*(slot+1)*value over labelled slots |
| Lenses.QueueContents | 2023/15/aoc15.go:81-92 | enqueueing a box's steps in index order records the last removal index of each label and queues every insertion |
| Lenses.LayoutRemoves | 2023/15/aoc15.go:97-106 | recording a removal after every queued insertion drops that label from the layout, and the layout has one slot per label |
| Lenses.LayoutIsSteps | 2023/15/aoc15.go:94-106 | the one-pass layout over recorded removals and insertions equals applying the steps one by one |
| Lenses.BoxMatchesSteps | 2023/15/aoc15.go:81-106 | for steps with increasing indices, enqueue then process yields the same box as performing each removal and insertion in order |
| Lenses.StepsDistinct | 2023/15/aoc15.go:97-106 | the step-by-step box never holds a label twice |
| Lenses.PlaceInPlace | 2023/15/aoc15.go:99-100 | a replacement keeps the lens's slot and changes only its focal length |
| Lenses.RemovePlaceSame | 2023/15/aoc15.go:82-98 | removing a label after placing it is the same as removing it before |
| Lenses.RemovePlaceOther | 2023/15/aoc15.go:98-103 | placing and removing different labels commute |
| Network.Letter | 2023/8/aoc8.go:134-136 | ctoi maps an upper-case letter to 0..25 |
| Network.Hash | 2023/8/aoc8.go:133-141 | hash reads three upper-case letters as base-26 digits, most significant first, into [0, 26^3) |
| Network.Name | 2023/8/aoc8.go:199-215 | every node number in [0, 26^3) has a three-letter name |
| Network.HashName | 2023/8/aoc8.go:133-141 | hashing the name of h gives h back |
| Network.NameHash | 2023/8/aoc8.go:133-141 | the name of hash(s) is s |
| Network.HashInjective | 2023/8/aoc8.go:133-141 | different names hash to different nodes |
| Network.RootGoalIff | 2023/8/aoc8.go:125-131 | isroot holds iff the last letter is 'A', isgoal iff it is 'Z' |
| Network.AsString | 2023/8/aoc8.go:201-215 | the debug formatter gives a name only for n >= 676 (first letter not 'A'), and then the right one |
| Network.AsStringDropsA | 2023/8/aoc8.go:197-215 | "AAA" (0) and "AZZ" (675) get no name back: the digit loop stops early and buf[2] is out of range |
| Network.GcdIsGreatestCommonDivisor | 2023/8/aoc8.go:151-183 | the reference gcd divides both arguments and every common divisor divides it |
| Network.GcdUnique | 2023/8/aoc8.go:151-183 | any common divisor that every common divisor divides is the gcd |
| Network.GcdScale | 2023/8/aoc8.go:165-182 | shifting both arguments by k shifts the gcd by k |
| Network.TrailingZerosOr | 2023/8/aoc8.go:165 | trailing_zeros(u or v) is the smaller of the two trailing-zero counts |
| Network.OddPart | 2023/8/aoc8.go:170-171 | shifting out the trailing zeros leaves an odd number that times 2^zeros is u |
| Network.GcdOddParts | 2023/8/aoc8.go:165-171 | gcd(a, b) is gcd of the odd parts shifted left by the common trailing zeros |
| Network.GcdStep | 2023/8/aoc8.go:173-179 | one subtract-and-shift step on two odd numbers keeps the gcd, keeps u odd and makes it smaller |
| Network.BinaryGcd | 2023/8/aoc8.go:152-183 | gcd(0, b) == b, gcd(a, 0) == a, and the binary algorithm returns the greatest common divisor |
| Network.LcmStep | 2023/8/aoc8.go:146 | Π * (n / gcd(Π, n)) is a positive common multiple of Π and n |
| Network.LcmExtends | 2023/8/aoc8.go:145-147 | after step i, Π is divisible by every entry up to i |
| Network.Lcm | 2023/8/aoc8.go:143-149 | lcm of no numbers is 1, and the result is a positive multiple of every entry |
| Network.LetterOf | 2023/8/aoc8.go:201-215 | a digit 0..25 is written as the upper-case letter of that rank |
| Machines.Cdiv | 2025/10/aoc10.go:787-793 | for b > 0, cdiv(a, b) is the q with b*q - b < a <= b*q |
| Machines.Fdiv | 2025/10/aoc10.go:795-801 | for b > 0, fdiv(a, b) is the q with b*q <= a < b*q + b |
| Machines.FdivIsFloor | 2025/10/aoc10.go:795-801 | fdiv equals mathematical floor division for b > 0 |
| Machines.CdivIsCeiling | 2025/10/aoc10.go:787-793 | cdiv equals the ceiling -floor(-a / b) for b > 0 |
| Machines.CdivMirror | 2025/10/aoc10.go:787-801 | cdiv(a, b) == -fdiv(-a, b) |
| Machines.CdivFdiv | 2025/10/aoc10.go:787-801 | cdiv and fdiv agree on exact quotients and differ by one otherwise |
| Machines.Egcd | 2025/10/aoc10.go:803-818 | egcd returns g, x, y with a*x + b*y == g, and g is the gcd when both arguments are non-negative |
| Machines.EgcdStep | 2025/10/aoc10.go:809-814 | the coefficient update x0 - q*x1, y0 - q*y1 keeps Bezout's identity for the new remainder |
| Machines.SumNegate | 2025/10/aoc10.go:741-746 | negating every entry negates the sum |
| Machines.SumPlus | 2025/10/aoc10.go:735-749 | Σplus returns the absolute value of the sum, leaves v alone when the sum is non-negative, negates it otherwise, and the returned vector sums to the result |
| Machines.IndexInverse | 2025/10/aoc10.go:751-754 | x(r, c) = 16r + c gives back r and c for 0 <= c < 16 |
| Machines.IndexInjective | 2025/10/aoc10.go:751-754 | distinct cells of a 16-wide matrix have distinct indices |
| Machines.Linc | 2025/10/aoc10.go:766-776 | linc returns vectors of the same length (entries a*x+b*y and c*x+d*y computed from the old values) |
| Machines.LincInverse | 2025/10/aoc10.go:766-776 | a combination with a*d - b*c == 1 is undone by the adjugate combination |
| Machines.Axpy | 2025/10/aoc10.go:778-783 | axpy returns a vector of the same length |
| Machines.AxpyInverse | 2025/10/aoc10.go:778-783 | adding a*x and then -a*x restores y |
| Machines.AxpyAdds | 2025/10/aoc10.go:778-783 | two axpy steps with a and b are one with a + b |
| Machines.XorBound | 2025/10/aoc10.go:92-107 | u ^ v stays below 2^w when u and v do, so the bmasks table index is in range |
| Machines.Discover | 2025/10/aoc10.go:104-118 | one BFS level finds exactly the patterns one press away from the frontier that were not seen, all within the table |
| Machines.NextLevel | 2025/10/aoc10.go:104-118 | the new patterns of a level are exactly those first reachable with k+1 presses |
| Machines.FoundFirst | 2025/10/aoc10.go:113-115 | a pattern discovered at level k+1 needs exactly k+1 presses and no fewer |
| Machines.EmptyFrontier | 2025/10/aoc10.go:104-121 | when a level discovers nothing, no number of presses reaches an unseen pattern |
| Machines.Part1 | 2025/10/aoc10.go:86-122 | part1 returns the fewest presses that light the pattern; it reports nothing (the panic) when the pattern cannot be reached, and always for the all-off pattern |
| Machines.AllOffUnanswered | 2025/10/aoc10.go:98 | the all-off pattern needs zero presses |
| Machines.Part1Fixed | 2025/10/aoc10.go:86-122 | with the all-off case answered 0, the result is always the fewest presses, or nothing exactly when the pattern is unreachable |
| Dial.Mod | 2025/1/aoc1.go:73-80 | for b > 0, mod(a, b) lies in [0, b) and equals the Euclidean remainder, so it is congruent to a |
| Dial.Turn | 2025/1/aoc1.go:26-58 | after every command the dial position stays in [0, 99] |
| Dial.TurnPosition | 2025/1/aoc1.go:31-41 | the new position is the old one moved n clicks right, or n clicks left, modulo 100 |
| Dial.ClicksRight | 2025/1/aoc1.go:35-55 | a right turn of n clicks from p passes or lands on 0 exactly (p + n) / 100 times |
| Dial.ClicksLeft | 2025/1/aoc1.go:36-52 | a left turn of n clicks from p passes or lands on 0 exactly (n + (100 - p) % 100) / 100 times |
| Dial.LeftTurn | 2025/1/aoc1.go:31-56 | on a left turn, pwd1 + pwd2 grows by the full wraps n / 100 plus one when a nonzero start is reached or crossed by the rest |
| Dial.LeftCases | 2025/1/aoc1.go:47-52 | the switch's "landed on 0 or moved up on a left turn" is exactly "the remaining clicks reach 0" |
| Dial.TurnCountsRight | 2025/1/aoc1.go:31-58 | on a right turn, pwd1 + pwd2 grows by the number of clicks that land on 0 |
| Dial.TurnCountsLeft | 2025/1/aoc1.go:31-58 | on a left turn, pwd1 + pwd2 grows by the number of clicks that land on 0 |
| Dial.TurnCountsClicks | 2025/1/aoc1.go:31-61 | the part 2 answer pwd1 + pwd2 grows on each command by exactly the clicks that point at 0 |
| Dial.TurnLanding | 2025/1/aoc1.go:43-49 | pwd1 counts a landing on 0 only from a nonzero start, and from 0 only the full wraps are added to pwd2 |
| Dial.LandingFromZeroMissed | 2025/1/aoc1.go:31-49 | from 0, "R100" lands on 0 again but pwd1 does not count it |
| Dial.TurnFixed | 2025/1/aoc1.go:26-58 | the corrected step keeps the position in [0, 99] |
| Dial.TurnFixedCounts | 2025/1/aoc1.go:26-58 | the corrected step counts a landing whenever the command ends on 0 (from any start), and the clicks on 0 as before |
| Lanternfish.Incube | 2021/6/aoc6.go:23-28 | incube keeps 9 slots; the new a[8] is the old a[0], the new a[6] is old a[7] + old a[0], and every other slot i takes old a[i+1] |
| Lanternfish.Popcnt | 2021/6/aoc6.go:30-36 | popcnt sums the slots |
| Lanternfish.PopcntIncube | 2021/6/aoc6.go:24-36 | one day grows the total population by the old a[0] |
| Lanternfish.CountDay | 2021/6/aoc6.go:24-28 | per fish, a day moves each timer down one, and a timer 0 resets to 6 and spawns an 8 |
| Lanternfish.DayCensus | 2021/6/aoc6.go:24-28 | counting the fish per timer after a day of individual fish equals incube of the counts before |
| Lanternfish.CensusSum | 2021/6/aoc6.go:44-47 | the per-timer counts add up to the number of fish read |
| Lanternfish.Population | 2021/6/aoc6.go:50-56 | after n days the sum of the counts is the number of fish the per-fish simulation has |
| Lanternfish.DayTimers | 2021/6/aoc6.go:24-28 | a day keeps every timer in 0..8 and adds one newborn per fish whose timer was 0 |
| Reports.Remove | 2024/2/aoc2.go:87-89 | remove deletes index i: one shorter, the elements before i kept, the ones after shifted down by one |
| Reports.Safe | 2024/2/aoc2.go:48-51 | reports with fewer than two levels are safe |
| Reports.FirstBad | 2024/2/aoc2.go:62-67 | the scan stops at the first step whose difference is outside 1..3 or against the trend of the first two levels |
| Reports.ScanFirstBad | 2024/2/aoc2.go:62-80 | the loop succeeds iff no step is bad, or errors remain and removing the level before or at the first bad step succeeds |
| Reports.AllSafeSteps | 2024/2/aoc2.go:58-71 | every step passing the unsafe test is the same as all differences in 1..3 or all in -3..-1 |
| Reports.SafeStrict | 2024/2/aoc2.go:48-81 | safe(r, 0) holds exactly for reports whose adjacent differences are all in 1..3 or all in -3..-1 |
| Reports.SafeTolerant | 2024/2/aoc2.go:48-81 | safe(r, 1) holds exactly when r is strictly safe or becomes so after removing one level |
| Reports.TolerantSound | 2024/2/aoc2.go:53-75 | whatever safe(r, 1) accepts is strictly safe after at most one removal |
| Reports.TolerantComplete | 2024/2/aoc2.go:53-75 | if removing some level makes r strictly safe, safe(r, 1) accepts it, even though only the first level and the two around the first bad step are tried |
| Reports.DropNear | 2024/2/aoc2.go:62-75 | when removing level k fixes the report, the first bad step is at k or k+1, or there is none |
| Reports.StrictTolerant | 2024/2/aoc2.go:36-81 | safe(r, 0) implies safe(r, 1) |
| Reports.ScanSound | 2024/2/aoc2.go:62-80 | when one error is allowed, the scan ends either with no bad step on a strictly safe report or at a first bad step b where dropping level b-1 or level b leaves a strictly safe report |
| Reports.SafeAfterDrop | 2024/2/aoc2.go:62-80 | the removals the scan tries are enough: if dropping level b-1 or level b fixes the report, safe(r, 1) holds |
| Calibration.Log10 | 2024/7/aoc7.go:79-86 | log10's loop counts the decimal digits of n (0 for n <= 0) |
| Calibration.LenBounds | 2024/7/aoc7.go:79-86 | for n > 0 that count d has 10^(d-1) <= n < 10^d, so it is the number of decimal digits |
| Calibration.Power10 | 2024/7/aoc7.go:88-95 | pow10(n) == 10^n, and 1 for n <= 0 |
| Calibration.Mask | 2024/7/aoc7.go:75-77 | mask(n) is at least 1 and exceeds every n >= 0 |
| Calibration.Recheck | 2024/7/aoc7.go:56-70 | a negative accumulator is rejected, and with one operand left the answer is acc == nums[0] |
| Calibration.Undo | 2024/7/aoc7.go:62-66 | if acc came from v * b or from v concatenated with b, the division and modulo tests recover v |
| Calibration.Redo | 2024/7/aoc7.go:62-64 | when a test passes, acc really is the product or the concatenation of the quotient and b |
| Calibration.ExtendMember | 2024/7/aoc7.go:62-66 | undoing one operator backwards accepts exactly the accumulators one forward step can produce |
| Calibration.RecheckVals | 2024/7/aoc7.go:54-70 | recheck over the reversed operands accepts acc iff some choice of +, * (and concatenation) evaluated left to right over the operands gives acc |
| Calibration.Reverse | 2024/7/aoc7.go:50-52 | slices.Reverse puts element len-1-i at i |
| Calibration.CheckPlain | 2024/7/aoc7.go:47-73 | check(nums, false) holds iff the target is reachable with + and * |
| Calibration.ClassifyLine | 2024/7/aoc7.go:37-42 | main adds the target to part 1 iff + and * reach it, and to part 2 only iff it needs concatenation as well |
| Springs.TrimRight | 2023/12/aoc12.go:41 | strings.TrimRight(s, ".") keeps the longest prefix not ending in '.' and drops only dots |
| Springs.Prep | 2023/12/aoc12.go:41 | the prepared row starts with the '.' that solve prepends |
| Springs.DotAtEnd | 2023/12/aoc12.go:41 | a trailing '.' does not change the number of placements of positive blocks |
| Springs.TrimWays | 2023/12/aoc12.go:41 | trimming the trailing dots does not change the number of placements |
| Springs.RunSnoc | 2023/12/aoc12.go:60-63 | the build counter grows by one per cell and restarts at 0 on '.' |
| Springs.RunFits | 2023/12/aoc12.go:70 | build >= block exactly when the last block cells hold no '.' |
| Springs.WaysStep | 2023/12/aoc12.go:66-74 | the placement count of a prefix one cell longer is the count without a block ending here (unless the cell is '#') plus the count with the last block ending here after a non-'#' separator |
| Springs.CellValue | 2023/12/aoc12.go:59-74 | the inner loop's nxt[i+1] update computes that count from build, cur and nxt |
| Springs.FirstRow | 2023/12/aoc12.go:45-54 | cur[j] is 1 while the first j cells hold no '#', else 0: the placement count with no blocks |
| Springs.NextRow | 2023/12/aoc12.go:56-80 | one pass over the row turns the counts for the first blocks into the counts with one more block, row length len(springs)+1 |
| Springs.Solve | 2023/12/aoc12.go:40-84 | solve returns the number of ways to place the blocks as runs of '#' or '?' separated by non-'#' cells, with every '#' covered; with no blocks it is 1 iff there is no '#' |
| Springs.RunSuffix | 2023/12/aoc12.go:60-63 | the build counter is the length of the trailing run without '.', which is preceded by a '.' unless it is the whole prefix |
| Towels.EmptyFind | 2024/19/aoc19.go:72-74 | a new node has no children and no stop mark |
| Towels.InsertFind | 2024/19/aoc19.go:79-88 | inserting a word adds exactly its prefixes as paths and marks exactly the word's end with stop |
| Towels.BuildFind | 2024/19/aoc19.go:76-91 | after build, a path ends on a stop node iff it is one of the words, and a path exists iff it is a prefix of some word |
| Towels.FindSnoc | 2024/19/aoc19.go:110-112 | walking one more character follows cur.next or fails |
| Towels.NoPatternBelow | 2024/19/aoc19.go:116-118 | once the walk falls off the trie, no longer piece of the line is a word, so the break loses nothing |
| Towels.TailZero | 2024/19/aoc19.go:107-122 | when no word of length k or more starts the line, the remaining count is 0 |
| Towels.WalkTail | 2024/19/aoc19.go:109-119 | the trie walk from a position sums the counts after every word that starts there |
| Towels.DfsSplits | 2024/19/aoc19.go:99-123 | dfs(start) counts the ways to split line[start:] into words, 1 at the end of the line |
| Towels.MatchSplits | 2024/19/aoc19.go:93-126 | match counts the ordered splits of the whole line into (non-empty) words; 1 for an empty line and 0 when no word is a prefix |
| Towels.DfsMemo | 2024/19/aoc19.go:98-123 | the memoised dfs returns the plain recursion's count and keeps every memo entry equal to it |
| Towels.Match | 2024/19/aoc19.go:94-126 | memoisation does not change the result: match returns dfs(0) of the plain recursion |
| Snailfish.Remove | 2021/18/aoc18.go:305-310 | removal succeeds iff the index is inside the slice, leaves the slice alone otherwise and shortens it by one when it succeeds |
| Snailfish.Insert | 2021/18/aoc18.go:312-319 | insertion lengthens the slice by one and puts the value at the index, including the append case i == len |
| Snailfish.InsertRemove | 2021/18/aoc18.go:305-319 | removing at the index just inserted at restores the original slice and reports success |
| Snailfish.RemoveInsert | 2021/18/aoc18.go:305-319 | re-inserting the removed element at its index restores the original slice |
| Snailfish.Join | 2021/18/aoc18.go:77-88 | adding to the empty number gives the right operand unchanged; otherwise the values are concatenated and the depth lists are concatenated |
| Snailfish.BumpFlat | 2021/18/aoc18.go:85-87 | bumping every depth by one is the same as flattening the tree one level deeper, with the same values |
| Snailfish.JoinFlat | 2021/18/aoc18.go:77-88 | adding two parsed numbers gives the flattening of the pair of their trees |
| Snailfish.Parse | 2021/18/aoc18.go:55-76 | parsing a token list gives a number with one depth per value |
| Snailfish.ParsePrintRest | 2021/18/aoc18.go:63-76 | parsing the printing of a tree followed by more tokens yields the tree's flattening (depth = number of open brackets - 1) followed by the rest |
| Snailfish.ParsePrint | 2021/18/aoc18.go:34-76 | parsing the bracket form of a tree gives exactly its flattened values and depths |
| Snailfish.FirstEq | 2021/18/aoc18.go:126-129 | the scan for a depth of 4 returns the first such index, or none when there is none |
| Snailfish.FirstBig | 2021/18/aoc18.go:175-178 | the scan for a value of 10 or more returns the first such index, or none when there is none |
| Snailfish.FirstTwin | 2021/18/aoc18.go:109-110 | the magnitude scan returns the first index whose depth equals the next one, or none |
| Snailfish.Explode | 2021/18/aoc18.go:125-147 | explode fires iff some depth is 4, keeps one depth per value, and changes nothing when it does not fire |
| Snailfish.Spread | 2021/18/aoc18.go:139 | the exploding pair's left slot becomes the regular number 0 and the right value is kept until it is removed |
| Snailfish.GiveLeft | 2021/18/aoc18.go:131-133 | only the left neighbour of the exploding pair changes |
| Snailfish.GiveRight | 2021/18/aoc18.go:135-137 | only the right neighbour of the exploding pair changes |
| Snailfish.ExplodeValues | 2021/18/aoc18.go:125-147 | after an explosion the value total drops by exactly the parts that had no neighbour to go to, and one value is removed when the pair had a right element |
| Snailfish.SpreadTotal | 2021/18/aoc18.go:131-139 | the value total after giving both halves away and zeroing the pair's left slot |
| Snailfish.GiveLeftTotal | 2021/18/aoc18.go:131-133 | the left neighbour gains the pair's left value, and only when one exists |
| Snailfish.GiveRightTotal | 2021/18/aoc18.go:135-137 | the right neighbour gains the pair's right value, and only when one exists |
| Snailfish.ExplodeDepths | 2021/18/aoc18.go:139-143 | an explosion strictly lowers the number of depth-4 entries, which is why the reduce loop's explode phase ends |
| Snailfish.Split | 2021/18/aoc18.go:172-189 | split fires iff some value is 10 or more, keeps one depth per value, and changes nothing when it does not fire |
| Snailfish.InsertParts | 2021/18/aoc18.go:312-319 | insert keeps everything before the index, shifts everything after it by one, and adds the value to the total |
| Snailfish.SplitValues | 2021/18/aoc18.go:175-186 | the first big value v becomes v/2 and v-v/2, both positive, smaller than v and differing by at most one; the rest is unchanged and the total is kept |
| Snailfish.SplitDepths | 2021/18/aoc18.go:182-184 | both halves sit one level deeper than the split value; the other depths are unchanged |
| Snailfish.Halves | 2021/18/aoc18.go:180 | rounding down and up halves a value of 10 or more into two positive parts |
| Snailfish.StepStops | 2021/18/aoc18.go:156-168 | one round of reduce does nothing iff no depth is 4 and no value is 10 or more |
| Snailfish.IterateStops | 2021/18/aoc18.go:157-168 | a loop that stops does so on a number no round changes, and keeps every invariant the round keeps |
| Snailfish.IterateMoreFuel | 2021/18/aoc18.go:157-168 | once the loop has stopped, more rounds give the same result |
| Snailfish.Reduce | 2021/18/aoc18.go:149-170 | a reduced number has no depth-4 pair and no value of 10 or more |
| Snailfish.ReduceFixed | 2021/18/aoc18.go:149-170 | reduce returns its argument unchanged iff that argument is already reduced |
| Snailfish.ReduceMoreFuel | 2021/18/aoc18.go:149-170 | the result of reduce does not depend on how many rounds were allowed beyond the ones it needed |
| Snailfish.ReduceIdempotent | 2021/18/aoc18.go:149-170 | reducing a reduced number again changes nothing |
| Snailfish.MagStep | 2021/18/aoc18.go:110-117 | one magnitude step merges two neighbours into one value, keeping one depth per value |
| Snailfish.Contract | 2021/18/aoc18.go:106-123 | contracting the leftmost pair of leaves into 3l+2r shrinks the tree by one node and keeps its magnitude |
| Snailfish.FlatDepths | 2021/18/aoc18.go:63-76 | every depth in a subtree's flattening is at least the subtree's own depth |
| Snailfish.FirstTwinFlat | 2021/18/aoc18.go:109-110 | the first pair of equal neighbouring depths in a flattened tree is its leftmost pair of leaves |
| Snailfish.TwinLeft | 2021/18/aoc18.go:109-110 | the leftmost-pair fact carries from a left subtree to its parent |
| Snailfish.TwinRight | 2021/18/aoc18.go:109-110 | the leftmost-pair fact carries from the right subtree when the left one is a leaf |
| Snailfish.FirstTwinIs | 2021/18/aoc18.go:109-110 | an index with equal neighbouring depths and none before is what the scan returns |
| Snailfish.StepCat | 2021/18/aoc18.go:110-117 | a magnitude step inside the left part of a concatenation only touches that part |
| Snailfish.StepCons | 2021/18/aoc18.go:110-117 | a magnitude step inside the right part of a concatenation only touches that part |
| Snailfish.StepFlat | 2021/18/aoc18.go:108-120 | one step of mag on a flattened tree is the flattening of the tree with its leftmost pair of leaves contracted |
| Snailfish.StepLeft | 2021/18/aoc18.go:108-120 | the contraction fact carries from a left subtree to its parent |
| Snailfish.StepRight | 2021/18/aoc18.go:108-120 | the contraction fact carries from the right subtree when the left one is a leaf |
| Snailfish.StepPair | 2021/18/aoc18.go:111-117 | two leaves at the same depth contract into 3a+2b one level up |
| Snailfish.MagFlat | 2021/18/aoc18.go:106-123 | the flat magnitude loop computes the tree magnitude 3*left + 2*right of the number it was parsed from |
| Crates.Rev | 2022/5/aoc5.go:53-58 | reversing keeps the length |
| Crates.RevAt | 2022/5/aoc5.go:53-58 | position i of the reversal holds the crate at len-1-i |
| Crates.RevRev | 2022/5/aoc5.go:53-58 | reversing twice gives the stack back |
| Crates.Cut | 2022/5/aoc5.go:45-49 | cut takes exactly the top n crates: what is left followed by what was cut is the old stack, and no other stack changes size |
| Crates.Reverse | 2022/5/aoc5.go:54-58 | the two-index swap loop reverses the slice |
| Crates.Pop | 2022/5/aoc5.go:51-60 | pop leaves the same world as cut and returns the cut crates in reverse order |
| Crates.Push | 2022/5/aoc5.go:62-64 | push appends the crates on top of the destination stack |
| Crates.PushCut | 2022/5/aoc5.go:45-64 | pushing the cut crates back onto their stack restores the world |
| Crates.TopPush | 2022/5/aoc5.go:62-69 | after a push, the destination's top is the last crate pushed |
| Crates.OneStep | 2022/5/aoc5.go:150 | moving n crates one at a time is moving the top crate and then n-1 more |
| Crates.RevLast | 2022/5/aoc5.go:53-58 | the reversal starts with the old top crate |
| Crates.CutLift | 2022/5/aoc5.go:45-49 | after the top crate moved, cutting n-1 crates takes the crates just below it |
| Crates.PopLift | 2022/5/aoc5.go:150 | moving the top crate and then popping n-1 crates ends where popping n crates at once does |
| Crates.OneByOnePop | 2022/5/aoc5.go:150 | part 1's push(pop) move equals n single-crate moves, the crane that moves one crate at a time |
| Crates.RevAppend | 2022/5/aoc5.go:53-58 | the reversal of a concatenation is the reversals in the other order |
| Crates.CratesUpdate | 2022/5/aoc5.go:62-64 | replacing one stack changes the crate count by the difference in that stack's size |
| Crates.Move | 2022/5/aoc5.go:146-152 | a muxed move keeps the number of stacks in both worlds |
| Crates.MoveCount | 2022/5/aoc5.go:146-152 | a move keeps the total number of crates in both worlds |
| Crates.MoveOne | 2022/5/aoc5.go:146-152 | moving a single crate has the same effect in both worlds |
| Crates.Tops | 2022/5/aoc5.go:79-94 | the message has at most one letter per stack |
| Crates.TopsCount | 2022/5/aoc5.go:82-86 | the message has exactly one letter per non-empty stack, each the top crate of a stack |
| DiskMap.FileSize | 2024/9/aoc9.go:70-76 | the loop sums the sizes of the file's blocks |
| DiskMap.SizeAppend | 2024/9/aoc9.go:70-76 | the size of two block lists together is the sum of their sizes |
| DiskMap.Insertion | 2024/9/aoc9.go:106-108 | the binary search returns the first index whose block does not start before the key |
| DiskMap.Gap | 2024/9/aoc9.go:105-116 | a block sharing no cell with an ordered free list fits between its neighbours at the insertion point |
| DiskMap.FreeCells | 2024/9/aoc9.go:105-116 | freeing a block keeps the free list ordered, adds exactly the block's cells, and grows the list by one unless it merges with the previous block |
| DiskMap.MergeCells | 2024/9/aoc9.go:111-112 | growing the previous block over a contiguous freed block keeps the order and adds exactly the freed cells |
| DiskMap.InsertCells | 2024/9/aoc9.go:113-114 | inserting a freed block at its place keeps the order and adds exactly its cells |
| DiskMap.InsertOrdered | 2024/9/aoc9.go:113-114 | inserting a block that fits between its neighbours keeps the list ordered |
| DiskMap.InsertHolds | 2024/9/aoc9.go:113-114 | after slices.Insert a cell is free iff it was free before or lies in the inserted block |
| DiskMap.OrderedApart | 2024/9/aoc9.go:105-116 | in an ordered free list every block ends before any later block starts |
| DiskMap.OrderedOnce | 2024/9/aoc9.go:105-116 | no cell lies in two blocks of an ordered free list |
| DiskMap.Fit | 2024/9/aoc9.go:161-169 | the scan stops at the first free block big enough for the file; every block it skips is too small; it never passes a block lying beyond the file |
| DiskMap.FitFirst | 2024/9/aoc9.go:161-169 | the scan finds nothing iff every free block not past the file is too small |
| DiskMap.Move | 2024/9/aoc9.go:150-197 | moving a file changes no other file and leaves the moved file non-empty |
| DiskMap.MoveLower | 2024/9/aoc9.go:150-197 | a moved file never ends up at a higher address and keeps its size |
| DiskMap.MoveWhen | 2024/9/aoc9.go:161-169 | a file stays put iff no free block at or below its start is big enough |
| DiskMap.MoveFree | 2024/9/aoc9.go:170-194 | when the file moves, it becomes one block taken from free space, and the free list loses exactly that block's cells and stays ordered |
| DiskMap.ShrinkFree | 2024/9/aoc9.go:174-184 | splitting a larger free block gives up its front cells and keeps the rest free and ordered |
| DiskMap.DeleteFree | 2024/9/aoc9.go:191-194 | deleting an exactly-fitting free block removes exactly its cells and keeps the order |
| DiskMap.DeleteHolds | 2024/9/aoc9.go:193 | after slices.Delete a cell is free iff it was free and not in the deleted block |
| DiskMap.HoldsOne | 2024/9/aoc9.go:63-66 | a one-block list holds exactly the cells of that block |
| DiskMap.MoveValid | 2024/9/aoc9.go:150-197 | a move keeps the file system invariant: files non-empty, the free list ordered, no cell in two files or in a file and the free list |
| DiskMap.Defrag | 2024/9/aoc9.go:118-136 | the corrected defrag keeps the number of files and every file non-empty |
| DiskMap.MoveLinked | 2024/9/aoc9.go:150-197 | a move keeps every file non-empty with a positive size |
| DiskMap.DefragAgrees | 2024/9/aoc9.go:118-136 | whenever the program as written finishes, the corrected defrag gives the same disk |
| DiskMap.DefragValid | 2024/9/aoc9.go:118-136 | defrag keeps the file system invariant |
| DiskMap.DefragLower | 2024/9/aoc9.go:118-136 | after defrag no file starts at a higher address and every file keeps its size |
| DiskMap.LayoutValid | 2024/9/aoc9.go:30-45 | the disk read from a disk map is a valid file system inside the map's total length |
| DiskMap.AddFile | 2024/9/aoc9.go:37-38 | linking a new file right after the used cells keeps the invariant |
| DiskMap.AddFree | 2024/9/aoc9.go:39-40 | marking a new free block right after the used cells keeps the invariant |
| DiskMap.LayoutShort | 2024/9/aoc9.go:30-45 | the disk map 111 gives files at cells 0 and 2 and a free cell at 1 |
| DiskMap.MoveShort | 2024/9/aoc9.go:150-197 | on that disk, moving file 1 fills cell 1 and empties the free list |
| DiskMap.DefragShort | 2024/9/aoc9.go:118-128 | on that disk the program as written reads an empty free list (a panic), while the corrected defrag finishes |
| DiskMap.UnlinkCells | 2024/9/aoc9.go:94-99 | unlinking a file keeps the free list ordered and frees exactly the file's cells |
| DiskMap.CellSumClosed | 2024/9/aoc9.go:142-144 | the sum of a block's cell addresses has the closed form size*(2*start+size-1)/2 |
| DiskMap.SeriesSum | 2024/9/aoc9.go:142-144 | the per-block sum equals the closed form |
| DiskMap.Checksum | 2024/9/aoc9.go:138-148 | the checksum is the sum over files of the file id times each address the file occupies |
| DiskMap.AddCells | 2024/9/aoc9.go:142-144 | the inner loop adds fid times the addresses of the block |
| Dirac.Advance | 2021/21/aoc21.go:56 | a pawn always lands on a cell of the ring 1..10 |
| Dirac.SolveRef | 2021/21/aoc21.go:45-65 | solve's seat swapping at every turn counts each player's wins correctly: the result equals a count that keeps the players in fixed seats (swapped back when seat two is to move) |
| Dirac.BranchOne | 2021/21/aoc21.go:55-61 | with seat one to move, the 27 universes summed by solve equal the fixed-seat sum |
| Dirac.BranchTwo | 2021/21/aoc21.go:55-61 | with seat two to move, the 27 universes summed by solve equal the fixed-seat sum with the counts swapped |
| Dirac.SolveStart | 2021/21/aoc21.go:45-65 | from the starting cells and zero scores, solve gives player one's and player two's win counts in that order |
| Dirac.SolveMemo | 2021/21/aoc21.go:45-65 | the cached solve returns what the uncached recursion returns and every cache entry it leaves is correct |
| Dirac.Roll | 2021/21/aoc21.go:76 | the deterministic die always shows 1..100 |
| Dirac.RollDie | 2021/21/aoc21.go:76 | rolling after k rolls shows what the die shows after k+1 rolls, wrapping from 100 to 1 |
| Dirac.TurnParity | 2021/21/aoc21.go:75-83 | turns of three rolls alternate between roll counts that are even and odd multiples of 3 |
| Dirac.Move | 2021/21/aoc21.go:75-79 | a turn rolls the die three times, each roll showing the next face of 1..100, and moves the pawn by each roll in turn (the reference Moved), leaving it on a cell of 1..10 |
| Dirac.OutcomeTurn | 2021/21/aoc21.go:74-84 | one turn of the reference game: the mover reaching 1000 ends it with the roll count and both scores, otherwise the other player moves next |
| Dirac.OutcomeEnds | 2021/21/aoc21.go:67-85 | every deterministic game ends with the winner at 1000 or more and the loser below, after a positive multiple of 3 rolls; player one wins exactly when that count is an odd multiple of 3 |
| Dirac.Play | 2021/21/aoc21.go:67-85 | play ends exactly as the turn-by-turn reference game Outcome from the starting cells and zero scores: same roll count, same winner and same scores; the winner has 1000 or more, the loser less, the answer is rolls times the loser's score, and player one wins iff the roll count is an odd multiple of 3 |
| Bits.Step1 | 2023/6/aoc6.go:100 | n OR= n>>1 doubles the run of set bits below the top bit |
| Bits.Step2 | 2023/6/aoc6.go:101 | n OR= n>>2 doubles the run again |
| Bits.Step4 | 2023/6/aoc6.go:102 | n OR= n>>4 doubles the run again |
| Bits.Step8 | 2023/6/aoc6.go:103 | n OR= n>>8 doubles the run again |
| Bits.Step16 | 2023/6/aoc6.go:104 | n OR= n>>16 doubles the run again |
| Bits.Step32 | 2023/6/aoc6.go:105 | after n OR= n>>32 every bit below the top bit is set |
| Bits.Top | 2023/6/aoc6.go:100-106 | smearing and n-(n>>1) isolate exactly the highest set bit of n |
| Bits.Full | 2023/6/aoc6.go:106 | a word whose bits below p are all set, minus its half, is p |
| Bits.Power | 2023/6/aoc6.go:99-107 | when n>>k == 1, 1<<k is the power of two with 2^k <= n < 2^(k+1) |
| Races.Times | 2023/6/aoc6.go:106 | multiplying the de Bruijn constant 0x07EDD5E59A4E28C2 by 2^k and keeping the top six bits selects the table slot of 2^k |
| Races.Table0 | 2023/6/aoc6.go:88-97 | tab64 maps the slot of 2^k back to k, for k in 0..7 |
| Races.Table1 | 2023/6/aoc6.go:88-97 | the same for k in 8..15 |
| Races.Table2 | 2023/6/aoc6.go:88-97 | the same for k in 16..23 |
| Races.Table3 | 2023/6/aoc6.go:88-97 | the same for k in 24..31 |
| Races.Table4 | 2023/6/aoc6.go:88-97 | the same for k in 32..39 |
| Races.Table5 | 2023/6/aoc6.go:88-97 | the same for k in 40..47 |
| Races.Table6 | 2023/6/aoc6.go:88-97 | the same for k in 48..55 |
| Races.Table7 | 2023/6/aoc6.go:88-97 | the same for k in 56..63 |
| Races.Log2Floor | 2023/6/aoc6.go:99-107 | log2 returns the floor of the binary logarithm of every non-zero word |
| Races.Log2Zero | 2023/6/aoc6.go:99-107 | log2 of zero reads tab64[0] and returns 63 |
| Races.Wrap | 2023/6/aoc6.go:110 | uint64(x) is a value below 2^64 and leaves a value already in range unchanged |
| Races.FloorLog | 2023/6/aoc6.go:99-107 | the integer floor log k satisfies 2^k <= x < 2^(k+1) |
| Races.Pow4Pow2 | 2023/6/aoc6.go:112 | a power of four is the power of two with the doubled exponent |
| Races.Pow2Mono | 2023/6/aoc6.go:112 | powers of two grow with the exponent |
| Races.StartBit | 2023/6/aoc6.go:112 | isqrt's first bit 1<<((log2(x)>>1)<<1) is a power of four with x below four times it |
| Races.Digit | 2023/6/aoc6.go:113-118 | one pass of isqrt's loop decides the next binary digit of the root and keeps the remainder equal to x minus the root so far squared |
| Races.RootDone | 2023/6/aoc6.go:112-120 | when the bit reaches zero the root r is exact: r*r <= x < (r+1)*(r+1) |
| Races.Quarter | 2023/6/aoc6.go:112 | p >>= 2 steps down one power of four and ends at 0 after 1 |
| Races.Isqrt | 2023/6/aoc6.go:109-121 | isqrt returns the integer square root of uint64(x) |
| Races.Wins | 2023/6/aoc6.go:27-31 | the reference count of winning holds in a range is at most the range's length |
| Races.BeatsSquare | 2023/6/aoc6.go:27-31 | holding x beats the record d iff (t-2x)^2 < t^2-4d, the quadratic solve relies on |
| Races.Half | 2023/6/aoc6.go:35 | Go's /2 truncates toward zero, for negative operands too |
| Races.Bounds | 2023/6/aoc6.go:35-44 | solve's two bounds are symmetric about t/2 up to the two one-step adjustments |
| Races.WinsSplit | 2023/6/aoc6.go:27-31 | counts over adjacent ranges add up |
| Races.WinsAll | 2023/6/aoc6.go:27-31 | a range where every hold wins counts its length |
| Races.WinsNone | 2023/6/aoc6.go:27-31 | a range where no hold wins counts 0 |
| Races.Between | 2023/6/aoc6.go:33-36 | with delta the root of t^2-4d, every hold strictly between x0 and t-x0 wins, none outside does, and x0 wins iff t-x0 does |
| Races.RootBelow | 2023/6/aoc6.go:33 | the root of t^2-4d is at most t when d >= 0 |
| Races.CountParts | 2023/6/aoc6.go:35-46 | the count is the number of holds strictly between the candidates plus both candidates when they win |
| Races.SolveCounts | 2023/6/aoc6.go:32-47 | for a positive discriminant, solve returns exactly the number of winning holds |
| Races.Loses | 2023/6/aoc6.go:27-31 | with a discriminant of 0 or less no hold beats the record |
| Races.NoWins | 2023/6/aoc6.go:27-31 | with a discriminant of 0 or less the count is 0 |
| Races.BoundsTight | 2023/6/aoc6.go:38-44 | after the adjustments the bounds are the first and last winning holds, and the holds just outside them lose |
| Races.Tie | 2023/6/aoc6.go:32-47 | when t^2 = 4d solve answers -1 although no hold wins |
| Races.RootZero | 2023/6/aoc6.go:109-121 | the root of 0 is 0 |
| Races.SolveAsWritten | 2023/6/aoc6.go:32-47 | solve as written counts the winners for a discriminant in 1..2^64-1 and answers -1 for a zero discriminant |
| Races.TieShort | 2023/6/aoc6.go:32-47 | t=2, d=1: solve answers -1 and no hold wins |
| Races.WrapShort | 2023/6/aoc6.go:109-121 | t=1, d=1: uint64 turns -3 into 2^64-3, whose root makes solve answer 4294967294 where no hold wins |
| Races.Solve | 2023/6/aoc6.go:32-47 | corrected solve: for every discriminant below 2^64, including zero and negative ones, the answer is the number of winning holds |
| Mixing.Mod | 2022/20/aoc20.go:211-213 | mod lifts Go's truncated remainder into [0, b) |
| Mixing.ModEuclid | 2022/20/aoc20.go:211-213 | ((a%b)+b)%b is the Euclidean remainder for every sign of a |
| Mixing.Flat | 2022/20/aoc20.go:130-133 | laying the first bins end to end gives as many items as they hold |
| Mixing.LensSplit | 2022/20/aoc20.go:86-92 | bin sizes over adjacent ranges add up |
| Mixing.LensUpdate | 2022/20/aoc20.go:79-83 | changing one bin's row changes the size of every range holding it by the row's change in length |
| Mixing.Where | 2022/20/aoc20.go:98-107 | every flat position has a bin and offset inside that bin, preceded by exactly that many items |
| Mixing.FlatAt | 2022/20/aoc20.go:130-133 | the item at offset o of bin b sits at flat position (items before b) + o |
| Mixing.Del | 2022/20/aoc20.go:74-79 | deleting shortens the list by one |
| Mixing.Ins | 2022/20/aoc20.go:116-123 | inserting lengthens the list by one |
| Mixing.FlatDel | 2022/20/aoc20.go:71-79 | removing an item from its bin removes it from the flat list at its global index |
| Mixing.FlatIns | 2022/20/aoc20.go:116-123 | inserting into a bin at an offset inserts into the flat list at the global index of that slot |
| Mixing.InsAppend | 2022/20/aoc20.go:116-123 | an insertion inside the first part of a list does not touch the rest |
| Mixing.FlatSame | 2022/20/aoc20.go:130-133 | changing a bin beyond the first hi does not change their flattening |
| Mixing.ClusterPrefix | 2022/20/aoc20.go:86-89 | the sizes of the first c clusters add up to the items in their bins |
| Mixing.ClusterUpdate | 2022/20/aoc20.go:82-83 | adjusting a cluster size by a bin's change in length keeps every cluster size exact |
| Mixing.Position | 2022/20/aoc20.go:85-92 | the global index computed from the cluster sizes, the bins before in the cluster and the offset is the flat position of the address |
| Mixing.LensMono | 2022/20/aoc20.go:99-106 | more bins hold at least as many items |
| Mixing.Locate | 2022/20/aoc20.go:97-107 | the remap skips whole clusters and then whole bins and returns a bin and an offset inside it that together name the global index |
| Mixing.Renumber | 2022/20/aoc20.go:74-77 | the left shift's address updates keep the address table's length |
| Mixing.RenumberDown | 2022/20/aoc20.go:118-121 | the right shift's address updates keep the address table's length |
| Mixing.RenumberGet | 2022/20/aoc20.go:74-77 | after the shift every moved item's address gets its new offset and every other address is unchanged |
| Mixing.RowUnique | 2022/20/aoc20.go:54-64 | no two items of a bin share a global index |
| Mixing.Removed | 2022/20/aoc20.go:71-79 | taking an item out keeps the number of bins and addresses |
| Mixing.RemoveIndexed | 2022/20/aoc20.go:71-79 | after the item leaves, every other index still has the address of its item |
| Mixing.RemoveBack | 2022/20/aoc20.go:74-79 | after the left shift each remaining item's address points back to it |
| Mixing.RemoveOne | 2022/20/aoc20.go:74-79 | after the left shift every other index is still located |
| Mixing.Inserted | 2022/20/aoc20.go:116-126 | putting the item back keeps the number of bins and addresses |
| Mixing.InsertIndexed | 2022/20/aoc20.go:116-126 | after the item is reinserted every index again has the address of its item |
| Mixing.InsertRow | 2022/20/aoc20.go:116-123 | the right shift moves each later item one slot up and keeps the indexes distinct |
| Mixing.InsertOne | 2022/20/aoc20.go:116-126 | after reinsertion every index is located |
| Mixing.InsertBack | 2022/20/aoc20.go:118-126 | after reinsertion each item's address points back to it |
| Mixing.InsertShifted | 2022/20/aoc20.go:118-121 | the items shifted right get their new offsets |
| Mixing.InsertStill | 2022/20/aoc20.go:116-123 | items in other bins or before the slot keep their addresses |
| Mixing.Cycle | 2022/20/aoc20.go:95 | a position brought round the circle lies in [0, m) |
| Mixing.CycleIs | 2022/20/aoc20.go:95 | that position is the Euclidean remainder |
| Mixing.Turn | 2022/20/aoc20.go:95 | a whole turn of the circle does not change the position |
| Mixing.MixAt | 2022/20/aoc20.go:69-126 | the reference move keeps the list's length |
| Mixing.Find | 2022/20/aoc20.go:69-71 | the search returns a position holding the index, or the end |
| Mixing.FindFirst | 2022/20/aoc20.go:69-71 | no earlier position holds the index |
| Mixing.FindBelow | 2022/20/aoc20.go:69-71 | the search stops at or before any position holding the index |
| Mixing.Mix | 2022/20/aoc20.go:69-126 | mixing one number keeps the list's length |
| Mixing.FindAt | 2022/20/aoc20.go:69-92 | the address kept for index k names the flat position where k is found |
| Mixing.LiftSizes | 2022/20/aoc20.go:71-83 | after the item leaves, the cluster sizes are exact, the bins hold n-1 items and the bins before it are unchanged in size |
| Mixing.LiftFlat | 2022/20/aoc20.go:71-92 | the item leaves the flat list exactly at its global index |
| Mixing.LiftValid | 2022/20/aoc20.go:71-92 | the combination of LiftSizes and LiftFlat |
| Mixing.DropSizes | 2022/20/aoc20.go:109-126 | reinserting the item restores the deck invariant for n items |
| Mixing.DropFlat | 2022/20/aoc20.go:116-123 | reinserting at bin b and offset o inserts into the flat list at the slot's global index |
| Mixing.MixIs | 2022/20/aoc20.go:85-126 | delete at the found position, then insert at (position + value) mod (n-1), is the reference move |
| Mixing.ModCycle | 2022/20/aoc20.go:95 | mod and the circle position agree |
| Mixing.Reinsert | 2022/20/aoc20.go:95-126 | locating and reinserting the item keeps the deck valid and inserts the item into the flat list at mod(target, n-1) |
| Mixing.Step | 2022/20/aoc20.go:69-127 | one move of the bins keeps the deck valid and performs the reference move of the item of index k on the flat list |
| Grove.Round | 2022/20/aoc20.go:69-127 | a round of the reference permutes the list: same length, same items |
| Grove.Rounds | 2022/20/aoc20.go:67-156 | any number of rounds permutes the list |
| Grove.Items | 2022/20/aoc20.go:38-39 | item i carries input[i] times the salt and the global index i |
| Grove.Once | 2022/20/aoc20.go:69-127 | one pass over the addresses keeps the deck valid and performs a reference round on the flat list |
| Grove.ValidPerm | 2022/20/aoc20.go:54-64 | a valid deck holds each index below n exactly once |
| Grove.ItemsPerm | 2022/20/aoc20.go:38-44 | the numbered input holds each index exactly once |
| Grove.PackedFlat | 2022/20/aoc20.go:36-45 | the first h packed bins lay out the first h*32 items of the flat list |
| Grove.PackedAt | 2022/20/aoc20.go:36-45 | offset o of packed bin b holds flat item 32b+o |
| Grove.Digits | 2022/20/aoc20.go:137-146 | a bin and offset below 32 are determined by the position 32*bin+off |
| Grove.PackedIndexed | 2022/20/aoc20.go:137-146 | packing with the address of every item recorded gives a fully indexed deck |
| Grove.SizesNext | 2022/20/aoc20.go:49-52 | adding bin i's length to cluster i/16 keeps the partial cluster sizes exact |
| Grove.Sizes | 2022/20/aoc20.go:47-52 | the cluster sizes computed after packing are exact, one more cluster than full groups of 16 bins |
| Grove.SizesStep | 2022/20/aoc20.go:49-52 | bin i belongs to cluster i/16 and to no other |
| Grove.ChopNext | 2022/20/aoc20.go:137-146 | appending the next item to the open bin, closing it at 32 items, keeps the packing and addressing facts |
| Grove.Chop | 2022/20/aoc20.go:135-147 | the repacking loop cuts the flat list into bins of 32 and records each item's address |
| Grove.ChopLast | 2022/20/aoc20.go:147 | the last, partial bin completes the packing |
| Grove.Pack | 2022/20/aoc20.go:130-155 | packing gives a valid deck whose flattening is the list, with n/32+1 bins of at most 32 items |
| Grove.Populate | 2022/20/aoc20.go:35-64 | the first deck is valid and its flattening is the salted, numbered input |
| Grove.Rebalance | 2022/20/aoc20.go:129-155 | rebalancing keeps the deck valid and the flat list unchanged, with at most 32 items a bin |
| Grove.ValsAppend | 2022/20/aoc20.go:158-167 | the numbers of two lists together are their numbers concatenated |
| Grove.Output | 2022/20/aoc20.go:158-169 | the output is the numbers in list order and o is the last position of a 0, or -1 when there is none |
| Grove.MoveMultiset | 2022/20/aoc20.go:71-123 | taking an item out and reinserting it anywhere permutes the list |
| Grove.MixMultiset | 2022/20/aoc20.go:69-126 | a reference move permutes the list |
| Grove.Run | 2022/20/aoc20.go:67-156 | the rounds keep the deck valid and perform the reference rounds |
| Grove.Shuffle | 2022/20/aoc20.go:19-170 | shuffle returns the numbers of the reference mixing of the salted input, a permutation of it, and the position of the 0 |
| Grove.Key | 2022/20/aoc20.go:172-180 | key sums the numbers 1000, 2000 and 3000 places after the 0, round the circle |
| Grove.Rot | 2022/20/aoc20.go:172-180 | cutting the circle open elsewhere keeps its length |
| Grove.RotAt | 2022/20/aoc20.go:172-180 | position i of the rotated list is position i+s of the original, round the circle |
| Grove.ModShift | 2022/20/aoc20.go:211-213 | shifting into and out of a rotation does not change a position mod n |
| Grove.RotTerm | 2022/20/aoc20.go:174-179 | a key term read on the rotated list with the shifted origin is the same number |
| Grove.KeyRotate | 2022/20/aoc20.go:172-180 | the key does not depend on where the circular list is cut open |
| Stones.WidthBounds | 2024/11/aoc11.go:58 | a positive stone written by strconv.Itoa has w digits with 10^(w-1) <= n < 10^w |
| Stones.WidthUnique | 2024/11/aoc11.go:58 | that digit count is the only w with those bounds |
| Stones.Bracket | 2024/11/aoc11.go:58 | two digit counts bracketing the same number are equal |
| Stones.AtoiAppend | 2024/11/aoc11.go:103-108 | atoi of two digit strings joined is the first times 10^(length of the second) plus the second |
| Stones.AtoiLast | 2024/11/aoc11.go:103-108 | atoi's loop adds the last digit to ten times the value of the rest |
| Stones.Blink | 2024/11/aoc11.go:57-68 | a blink makes one or two stones, and a 0 becomes a 1 |
| Stones.BlinkHalves | 2024/11/aoc11.go:62-64 | a stone with an even number of digits splits into its left and right halves: left*10^m+right is the stone, the left half has m digits and the right half fewer than m+1 |
| Stones.BlinkTimes | 2024/11/aoc11.go:65-66 | a non-zero stone with an odd number of digits becomes 2024 times itself |
| Stones.Halves | 2024/11/aoc11.go:63-64 | splitting a decimal word with no leading zero at m gives the two values that recombine into the word's value |
| Stones.BlinkSplits | 2024/11/aoc11.go:62-64 | a stone with 2m digits splits into a left part and a right part below 10^m that recombine into it |
| Stones.SpreadAny | 2024/11/aoc11.go:72-76 | MemBlink's result is the same whichever stone of the counter is taken first |
| Stones.SpreadMap | 2024/11/aoc11.go:70-78 | blinking the counter of a stone line is the counter of the blinked line: the counter loses only the order |
| Stones.Copies | 2024/11/aoc11.go:81-83 | k copies of x count k for x and 0 for every other stone |
| Stones.ScaledMore | 2024/11/aoc11.go:73-75 | the stones of a blink k times are once plus k-1 times |
| Stones.ScaledNone | 2024/11/aoc11.go:73-75 | zero copies add nothing |
| Stones.Drained | 2024/11/aoc11.go:72 | removing a stone and then all its copies is removing all its copies |
| Stones.SpreadKey | 2024/11/aoc11.go:72-76 | a key with count k contributes the stones of its blink k times, and the rest of the counter contributes the rest |
| Stones.Add | 2024/11/aoc11.go:81-83 | Add raises the key's count by value and leaves every other count alone |
| Stones.Sum | 2024/11/aoc11.go:85-91 | Sum is the total number of stones the counter holds |
| Stones.ScaledSize | 2024/11/aoc11.go:73-75 | k copies of a blink's stones number k times as many |
| Stones.BlinkSum | 2024/11/aoc11.go:70-78 | the blinked counter's total is the key's count times its blink's size plus the rest |
| Stones.AddAll | 2024/11/aoc11.go:73-75 | adding the blink of a stone with count k adds k copies of each resulting stone |
| Stones.MemBlink | 2024/11/aoc11.go:70-78 | MemBlink gives exactly the counter of the stones after one blink of every stone |
| Stones.Count | 2024/11/aoc11.go:27-31 | reading the line adds 1 for each stone: the counter is the multiset of the line |
| Stones.SpreadsMaps | 2024/11/aoc11.go:33-41 | t blinks of the counter are the counter of t blinks of the line |
| Stones.Run | 2024/11/aoc11.go:23-45 | the two sums are the lengths of the stone line after 25 and after 75 blinks |
| Stones.Later | 2024/11/aoc11.go:33-41 | t+1 blinks are one blink after t blinks |
| Aplenty.All | 2023/19/aoc19.go:115-126 | all() is one box spanning 1..4000 on each of the four axes x, m, a, s |
| Aplenty.AllPoints | 2023/19/aoc19.go:115-126 | a part lies in that box iff each rating is between 1 and 4000 |
| Aplenty.Keep | 2023/19/aoc19.go:146-155 | a half is kept iff its span has lo < hi, and a kept half changes only the cut axis |
| Aplenty.Split | 2023/19/aoc19.go:129-158 | split as written: the low half [lo, min(hi, x-1)] is kept iff lo < x-1, the high half [max(lo, x), hi] iff x < hi; other axes are copied |
| Aplenty.SplitSound | 2023/19/aoc19.go:129-158 | every point of either half lies in the box, below x+off in the low half and at or above it in the high half |
| Aplenty.SplitDropsPoint | 2023/19/aoc19.go:146-147 | cutting the full box at x < 2 keeps neither half, so the part (1,1,1,1) is lost although it lies in the box |
| Aplenty.SplitDropsPart | 2023/19/aoc19.go:146-147 | a box one unit wide on the cut axis straddling the cut is dropped entirely |
| Aplenty.SplitFixed | 2023/19/aoc19.go:129-158 | the corrected split (spans kept when lo <= hi) copies every other axis |
| Aplenty.SplitFixedPoints | 2023/19/aoc19.go:129-158 | a point is in the corrected low half iff it is in the box below x+off, and in the high half iff it is in the box at or above it: nothing lost, nothing added |
| Aplenty.ApplyPoints | 2023/19/aoc19.go:190-215 | one rule sends exactly the points of a box that pass its test to its jump and leaves exactly the others for the next rule |
| Aplenty.Factor | 2023/19/aoc19.go:109-111 | a box's volume is the width of one axis times the product of the others |
| Aplenty.Replace | 2023/19/aoc19.go:149-151 | replacing one axis's span scales the volume by the new width |
| Aplenty.SplitFixedVolume | 2023/19/aoc19.go:129-158 | the two corrected halves together hold exactly as many points as the box |
| Aplenty.IndexOf | 2023/19/aoc19.go:77 | strings.Index of one character: its first position, or -1 iff it does not occur |
| Aplenty.Field | 2023/19/aoc19.go:81 | a field of strings.Split at ':' contains no ':' |
| Aplenty.ParseRule | 2023/19/aoc19.go:73-92 | a rule without ':' is a bare jump; one with ':' takes the test byte at position 1, an axis from "xmas" (or -1), a non-negative threshold and the jump after ':' |
| Aplenty.ParseShow | 2023/19/aoc19.go:73-92 | parsing the text of a well-formed rule gives the rule back |
| Ropes.Sign | 2022/9/aoc9.go:86-93 | one coordinate of dir is -1, 0 or 1, with the sign of the input coordinate, and 0 only for 0 |
| Ropes.Dir | 2022/9/aoc9.go:83-96 | dir points each coordinate toward the input's sign, moves at most one cell on each axis, and is zero only for the zero vector |
| Ropes.Square | 2022/9/aoc9.go:99-101 | a coordinate of size 2 or more squares to 4 or more; one of size at most 1 squares to at most 1 |
| Ropes.Len2Far | 2022/9/aoc9.go:56-57 | len2 >= 4 holds exactly when the knots are two or more cells apart on some axis, i.e. no longer touching |
| Ropes.Follow | 2022/9/aoc9.go:53-60 | the tail moves at most one cell each way, and moves at all iff the head is no longer touching it |
| Ropes.FollowTouch | 2022/9/aoc9.go:53-60 | when the head moved by at most one cell from a touching position, the tail touches it again after following |
| Ropes.Pull | 2022/9/aoc9.go:52-61 | the pull from knot i leaves knots 0..i alone and keeps the rope's length |
| Ropes.PullTaut | 2022/9/aoc9.go:52-61 | after the pull every pair of neighbouring knots touches and every knot moved at most one cell each way |
| Ropes.PullStep | 2022/9/aoc9.go:54-60 | one iteration of the knot loop extends the touching prefix by one knot |
| Ropes.Step | 2022/9/aoc9.go:48-61 | one step moves the head by the offset and keeps the rope's length |
| Ropes.StepTaut | 2022/9/aoc9.go:48-61 | a step of at most one cell keeps a touching rope touching and moves each knot at most one cell |
| Ropes.Offset | 2022/9/aoc9.go:34-37 | every heading (and the zero entry of the table for any other byte) moves at most one cell |
| Ropes.Rep | 2022/9/aoc9.go:47-67 | a motion of n steps repeats the heading's offset n times |
| Ropes.Final | 2022/9/aoc9.go:41-68 | the rope after all motions has ten knots still |
| Ropes.Trail | 2022/9/aoc9.go:41-68 | the rope is recorded after every step |
| Ropes.TrailTaut | 2022/9/aoc9.go:41-68 | every recorded rope and the final rope are taut: neighbouring knots touch |
| Ropes.GridAdd | 2022/9/aoc9.go:115-127 | set.add marks the hashed cell and counts it iff it was not yet marked |
| Ropes.GridCounts | 2022/9/aoc9.go:111-127 | the count stays the number of marked cells |
| Ropes.GridCollision | 2022/9/aoc9.go:116-122 | the hash 256*(x+257)+y maps (0,0) and (1,-256) to the same cell, so two visited positions count once |
| Ropes.Visit | 2022/9/aoc9.go:63-64 | a visit records the position, loses nothing, adds nothing else and grows the count by one iff the position is new |
| Ropes.Start | 2022/9/aoc9.go:39 | the rope starts as ten knots at the origin, touching |
| Ropes.Repeat | 2022/9/aoc9.go:47-67 | n steps of a motion keep the visited sets equal to the positions knots 1 and 9 have taken |
| Ropes.Repeated | 2022/9/aoc9.go:47-67 | one more step of a motion is one more repetition of the offset |
| Ropes.RecordedStep | 2022/9/aoc9.go:48-64 | a step followed by recording knots 1 and 9 keeps the visited sets exact |
| Ropes.Run | 2022/9/aoc9.go:28-71 | the two answers are the numbers of distinct positions of knot 1 and of knot 9 over the whole trail, the origin included |
| Ropes.VisitedStep | 2022/9/aoc9.go:41-68 | one more step adds the new rope to the trail and each knot's new position to its visited set |
| Ropes.Plus | 2022/9/aoc9.go:73-81 | add is undone by sub of the same vector, and adding the zero vector changes nothing |
| Claw.Solve | 2024/13/aoc13.go:56-76 | solve returns non-negative presses; (0, 0) when the buttons are collinear; any other answer really brings the claw to the (offset) prize |
| Claw.QuoExact | 2024/13/aoc13.go:68-69 | Go's truncating division is exact on a multiple of the divisor, whatever the signs |
| Claw.DivExact | 2024/13/aoc13.go:68-69 | dividing an exact multiple gives the factor back |
| Claw.Numerators | 2024/13/aoc13.go:62-69 | presses that win make Cramer's numerators exactly the presses times the determinant |
| Claw.SolveFinds | 2024/13/aoc13.go:56-76 | when the determinant is non-zero and some non-negative presses win, solve returns exactly those presses |
| Claw.WinsUnique | 2024/13/aoc13.go:56-76 | with a non-zero determinant at most one pair of presses wins, so solve's answer is the cheapest one |
| Claw.Run | 2024/13/aoc13.go:44-51 | main's two sums are the tokens 3a+b over all machines, for the prizes as given and moved by 10^13, and are never negative |
| Bingo.NewCard | 2021/4/aoc4.go:31-35 | a new card has five zero row sums, five zero column sums and no numbers |
| Bingo.Add | 2021/4/aoc4.go:37-41 | add puts n at (r, c) and adds it to row r's and column c's sums, changing no other sum |
| Bingo.Biff | 2021/4/aoc4.go:43-54 | a number not on the card changes nothing and does not win; a number on the card is subtracted from its row's and column's sums |
| Bingo.Column | 2021/4/aoc4.go:25-29 | column c of the board, top to bottom |
| Bingo.PlacedBoard | 2021/4/aoc4.go:37-41 | a card whose map places every cell of the grid comes from a board with distinct numbers |
| Bingo.SumPrefix | 2021/4/aoc4.go:56-62 | a sum over one more element adds that element |
| Bingo.RowsStep | 2021/4/aoc4.go:80-83 | reading the next cell of a row adds it to that row's sum |
| Bingo.ColsStep | 2021/4/aoc4.go:80-83 | reading the next cell of a row adds it to its column's sum |
| Bingo.ValStep | 2021/4/aoc4.go:80-83 | reading the next cell records its coordinates in the map |
| Bingo.AddFilled | 2021/4/aoc4.go:80-83 | add keeps the card equal to the cells read so far |
| Bingo.NextLine | 2021/4/aoc4.go:79-84 | after five cells the next row starts |
| Bingo.FillNone | 2021/4/aoc4.go:67 | a new card matches the empty part of the board |
| Bingo.UnmarkedNone | 2021/4/aoc4.go:56-62 | with nothing drawn, the unmarked sum is the plain sum |
| Bingo.ReadCard | 2021/4/aoc4.go:79-84 | reading a board's five rows gives a card whose row and column sums are the board's sums and whose map places each number |
| Bingo.FilledTracks | 2021/4/aoc4.go:79-84 | a fully read card tracks the board with nothing drawn |
| Bingo.MarkNone | 2021/4/aoc4.go:43-54 | drawing a number absent from a line does not change its unmarked sum |
| Bingo.MarkOne | 2021/4/aoc4.go:46-47 | drawing the number at one position of a line lowers its unmarked sum by that number |
| Bingo.RowStep | 2021/4/aoc4.go:46 | drawing a number lowers only its own row's unmarked sum |
| Bingo.ColStep | 2021/4/aoc4.go:47 | drawing a number lowers only its own column's unmarked sum |
| Bingo.OffStep | 2021/4/aoc4.go:43-54 | a number not on the board changes no unmarked sum |
| Bingo.BiffTracks | 2021/4/aoc4.go:43-54 | biff keeps every row and column sum equal to the sum of the unmarked numbers in it |
| Bingo.BiffSums | 2021/4/aoc4.go:43-54 | the row and column sums after biff are the unmarked sums after the draw |
| Bingo.HitRows | 2021/4/aoc4.go:46 | subtracting the drawn number from its row keeps all row sums exact |
| Bingo.HitCols | 2021/4/aoc4.go:47 | subtracting the drawn number from its column keeps all column sums exact |
| Bingo.SumFive | 2021/4/aoc4.go:56-62 | the sum of five entries written out |
| Bingo.SumLast | 2021/4/aoc4.go:56-62 | a sum splits off its last element |
| Bingo.SumTracks | 2021/4/aoc4.go:56-62 | sum() is the sum of all unmarked numbers on the board |
| Bingo.BiffWins | 2021/4/aoc4.go:49-51 | biff as written reports a win iff the drawn number is on the card and its row or column has an unmarked sum of zero |
| Bingo.BiffEarlyWin | 2021/4/aoc4.go:49 | a row holding 0, 1, 2, 3, 4 has unmarked sum 0 once 1..4 are drawn although the 0 is not drawn: biff reports a win on an incomplete row |
| Bingo.Hits | 2021/4/aoc4.go:43-54 | a line has at most as many drawn cells as cells |
| Bingo.HitsAll | 2021/4/aoc4.go:43-54 | every cell of a line is drawn iff its drawn count is its length |
| Bingo.HitOne | 2021/4/aoc4.go:43-54 | drawing a number on a line adds one drawn cell |
| Bingo.HitNone | 2021/4/aoc4.go:43-54 | drawing a number off a line adds none |
| Bingo.BiffFixed | 2021/4/aoc4.go:43-54 | the corrected biff updates the sums as biff does and changes nothing for a number off the card |
| Bingo.HitStep | 2021/4/aoc4.go:43-54 | a drawn number adds one hit to its own row and column only |
| Bingo.HitOff | 2021/4/aoc4.go:43-54 | a number off the board adds no hit |
| Bingo.BiffFixedTracks | 2021/4/aoc4.go:43-54 | the corrected biff keeps the card tracking the board |
| Bingo.BiffCounts | 2021/4/aoc4.go:43-54 | the corrected biff keeps the hit counts exact |
| Bingo.CountsOn | 2021/4/aoc4.go:43-54 | counting the drawn number in its row and column keeps the counts exact |
| Bingo.CountsOff | 2021/4/aoc4.go:43-54 | a number off the board keeps the counts exact |
| Bingo.BiffFixedWins | 2021/4/aoc4.go:43-54 | the corrected biff wins iff the drawn number completes its row or its column |
| Camel.Nib | 2023/7/aoc7.go:42-44 | a nibble of the hand word is a 4-bit value |
| Camel.PutOnK | 2023/7/aoc7.go:65-69 | setting the kind field to a 3-bit value reads it back through get's shift and mask and leaves every other bit alone |
| Camel.PutOnX | 2023/7/aoc7.go:65-69 | setting the flag field to one bit reads it back and leaves every other bit alone |
| Camel.GetSetK | 2023/7/aoc7.go:60-77 | getk after setk(k) returns k for every k in 0..7, and the other bits are unchanged |
| Camel.GetSetX | 2023/7/aoc7.go:83-89 | getx after setx returns 1, and the other bits are unchanged |
| Camel.GetClrX | 2023/7/aoc7.go:79-85 | getx after clrx returns 0, and the other bits are unchanged |
| Camel.ClrOnX | 2023/7/aoc7.go:55-58 | clr zeroes exactly the field's bits |
| Camel.NibbleDigit | 2023/7/aoc7.go:65-69 | a small int written as a word reads back as the same number |
| Camel.HexZero | 2023/7/aoc7.go:42-44 | the zero word has value 0 |
| Camel.WordSmall | 2023/7/aoc7.go:68 | a small int's 64-bit pattern is its nibble |
| Camel.PutK | 2023/7/aoc7.go:71-73 | setk replaces the kind digit of a packed hand and nothing else |
| Camel.PutX | 2023/7/aoc7.go:87-89 | setx replaces the flag bit of a packed hand and nothing else |
| Camel.GetKBits | 2023/7/aoc7.go:75-77 | getk reads the kind of a packed hand |
| Camel.GetXBits | 2023/7/aoc7.go:83-85 | getx reads the flag of a packed hand |
| Camel.PutCard0 | 2023/7/aoc7.go:120 | writing the first card into its blank field puts its rank in the fifth nibble |
| Camel.PutCard1 | 2023/7/aoc7.go:120 | writing the second card into its blank field puts its rank in the fourth nibble |
| Camel.PutCard2 | 2023/7/aoc7.go:120 | writing the third card into its blank field puts its rank in the third nibble |
| Camel.PutCard3 | 2023/7/aoc7.go:120 | writing the fourth card into its blank field puts its rank in the second nibble |
| Camel.PutCard4 | 2023/7/aoc7.go:120 | writing the fifth card into its blank field puts its rank in the lowest nibble |
| Camel.PackNibs | 2023/7/aoc7.go:40-44 | the layout of the hand word: five card nibbles from low to high, then kind and flag together in the sixth, nothing above bit 24 |
| Camel.HighNibs | 2023/7/aoc7.go:40-44 | a hand word below 2^24 has a clear sign bit and zero upper nibbles |
| Camel.Low24 | 2023/7/aoc7.go:91-93 | such a word's int value is its six hex digits |
| Camel.TopDigit | 2023/7/aoc7.go:42-53 | the top digit is twice the kind plus the flag |
| Camel.Nibbles | 2023/7/aoc7.go:113-122 | in-range kind, flag and ranks are small enough to pack |
| Camel.HandSetK | 2023/7/aoc7.go:71-73 | setk on a hand changes only its kind |
| Camel.HandSetX | 2023/7/aoc7.go:87-89 | setx on a hand changes only its flag |
| Camel.HandGet | 2023/7/aoc7.go:75-85 | getk and getx read a hand's kind and flag |
| Camel.HandSetCard | 2023/7/aoc7.go:120 | setting card i over its blank field gives the hand with rank n at position i |
| Camel.SetCard0 | 2023/7/aoc7.go:120 | the same for the first card |
| Camel.SetCard1 | 2023/7/aoc7.go:120 | the same for the second card |
| Camel.SetCard2 | 2023/7/aoc7.go:120 | the same for the third card |
| Camel.SetCard3 | 2023/7/aoc7.go:120 | the same for the fourth card |
| Camel.SetCard4 | 2023/7/aoc7.go:120 | the same for the fifth card |
| Camel.HandDigits | 2023/7/aoc7.go:40-44 | the hex digits of a hand are 2k+x and then the five ranks |
| Camel.PackDigits | 2023/7/aoc7.go:40-44 | the same digits for a packed word |
| Camel.HandValue | 2023/7/aoc7.go:91-93 | a hand's Go int value is the base-16 number of its digits |
| Camel.Pow16 | 2023/7/aoc7.go:40-44 | powers of 16 are positive |
| Camel.HornerSix | 2023/7/aoc7.go:40-44 | six hex digits make the number they spell |
| Camel.MulGap | 2023/7/aoc7.go:91-93 | a larger leading digit outweighs everything after it |
| Camel.HornerBound | 2023/7/aoc7.go:91-93 | n hex digits make a number below 16^n |
| Camel.HornerLex | 2023/7/aoc7.go:91-93 | numbers of equally many hex digits compare as their digit sequences compare lexicographically, and are equal iff the digits are |
| Camel.Index | 2023/7/aoc7.go:100-105 | the scan of the rank string returns the first position of the card, or -1 iff it is absent |
| Camel.IndexDistinct | 2023/7/aoc7.go:100-105 | in a string of distinct characters the scan finds each at its own position |
| Camel.RanksDistinct | 2023/7/aoc7.go:96-99 | both rank strings have distinct characters |
| Camel.CtoiJack | 2023/7/aoc7.go:95-106 | in Jack mode the cards 2..A rank 1..13 in order |
| Camel.CtoiJoker | 2023/7/aoc7.go:95-106 | in Joker mode J ranks 0 and every other card keeps its Jack-mode rank |
| Camel.CtoiRange | 2023/7/aoc7.go:95-106 | every card ranks 0..13, at least 1 in Jack mode |
| Camel.CtoiInjective | 2023/7/aoc7.go:95-106 | different cards get different ranks in either mode |
| Camel.Ranks | 2023/7/aoc7.go:118-122 | a hand's five ranks are each in 0..13 |
| Camel.Count | 2023/7/aoc7.go:121 | a rank occurs at most as often as there are cards |
| Camel.Tally | 2023/7/aoc7.go:114-122 | buf has 14 non-negative counts |
| Camel.TallyCount | 2023/7/aoc7.go:121 | buf[v] counts the cards of rank v |
| Camel.TotalUpdate | 2023/7/aoc7.go:121 | one increment raises the total by one |
| Camel.TotalZero | 2023/7/aoc7.go:114 | the zero buffer totals 0 |
| Camel.TallyTotal | 2023/7/aoc7.go:114-122 | the counts total the number of cards |
| Camel.TotalPrefix | 2023/7/aoc7.go:130 | the running total nread never exceeds the full total |
| Camel.Top2 | 2023/7/aoc7.go:125-155 | the two biggest groups are ordered, together no more than the cards, and the biggest is non-empty when there are cards |
| Camel.Top2Bounds | 2023/7/aoc7.go:125-155 | no count exceeds the biggest group, and no two counts exceed the two biggest |
| Camel.Top2Attained | 2023/7/aoc7.go:125-155 | the two biggest groups are real counts at two different ranks |
| Camel.Bits | 2023/7/aoc7.go:132-150 | every kind has k in 1..4 and flag x in 0..1 |
| Camel.BitsOrder | 2023/7/aoc7.go:132-150 | 2k+x orders the kinds as the game does, and tells every kind apart |
| Camel.Kept | 2023/7/aoc7.go:125-128 | in Joker mode the scan skips the jokers' count; every other count is kept |
| Camel.SwitchStep | 2023/7/aoc7.go:132-150 | each case of the switch updates k and x to the kind of the groups read so far |
| Camel.SwitchNext | 2023/7/aoc7.go:132-150 | the switch on count c moves k and x to the kind with c added to the groups |
| Camel.JokerStep | 2023/7/aoc7.go:157-169 | raising k by the number of jokers, and capping at five of a kind, gives the kind with the jokers joined to the biggest group |
| Camel.Top2Rest | 2023/7/aoc7.go:152-154 | once every card is read, the rest of the counts are zero and do not change the two biggest groups, so the early break is safe |
| Camel.TallyNext | 2023/7/aoc7.go:121 | one more card increments its rank's count |
| Camel.NewHand | 2023/7/aoc7.go:113-172 | newHand builds the hand word of the best kind and the five ranks |
| Camel.ReadCards | 2023/7/aoc7.go:116-122 | the first loop writes the five ranks into the hand with kind 1 and counts them in buf |
| Camel.StartHand | 2023/7/aoc7.go:116-117 | a new hand with setk(1) is high card with blank card fields |
| Camel.ReadCard | 2023/7/aoc7.go:119-121 | one iteration writes card i and counts it |
| Camel.PlaceCard | 2023/7/aoc7.go:120 | writing a card over its blank field |
| Camel.CountCard | 2023/7/aoc7.go:121 | buf[n]++ counts card i |
| Camel.ReadKinds | 2023/7/aoc7.go:124-169 | the kind scan and the joker raise set k and x to the bits of the best kind of the tally |
| Camel.JokerRank | 2023/7/aoc7.go:124 | the joker's rank J is 0 in Joker mode |
| Camel.ReadingTally | 2023/7/aoc7.go:124-128 | the scan reads the tally with the jokers' count left out in Joker mode |
| Camel.ReadKind | 2023/7/aoc7.go:125-155 | the scan over the kept counts sets k and x to the kind of their two biggest groups |
| Camel.ReadRank | 2023/7/aoc7.go:126-154 | one iteration of the scan keeps k and x the kind of the counts read so far, and stops only when the rest cannot change it |
| Camel.Switch | 2023/7/aoc7.go:132-150 | the switch moves k and x one step as SwitchNext states |
| Camel.SetPair | 2023/7/aoc7.go:87-89 | setx marks the second pair or the full house |
| Camel.RaiseJokers | 2023/7/aoc7.go:157-169 | the joker raise gives the kind with the jokers joined to the biggest group |
| Camel.SetKind | 2023/7/aoc7.go:71-73 | setk changes only the kind |
| Camel.MakeFive | 2023/7/aoc7.go:162-165 | JJJJJ and four plus a joker become five of a kind |
| Camel.Wrap | 2023/7/aoc7.go:92 | int(*h - *u) wraps to a 64-bit two's complement value |
| Camel.RanksInjective | 2023/7/aoc7.go:95-106 | two hands with the same ranks are the same hand |
| Camel.ValueBound | 2023/7/aoc7.go:40-44 | a hand's value lies in 0..2^24-1, so the difference of two hands cannot wrap |
| Camel.Top | 2023/7/aoc7.go:42-44 | the top digit of every kind is 2..9 |
| Camel.TopValue | 2023/7/aoc7.go:40-44 | the hand's value is the hex number of the kind digit followed by the ranks |
| Camel.CmpValues | 2023/7/aoc7.go:91-93 | cmp is the difference of the two values |
| Camel.EncodeOf | 2023/7/aoc7.go:113-172 | newHand's word holds the bits of the best kind and the ranks |
| Camel.DigitsLex | 2023/7/aoc7.go:40-44 | comparing kind digit and ranks lexicographically is comparing kinds first, then the ranks |
| Camel.HandOrder | 2023/7/aoc7.go:25-26 | cmp sorts hands by the game's order: a stronger kind ranks higher, then the first differing card, and cmp is 0 only for the same hand |
| Camel.CardMaskShort | 2023/7/aoc7.go:65-69 | card fields are cleared with mask 7, narrower than a rank: get on a field holding 13 reads 5, and a set over an occupied field keeps the old top bit |
| Reactor.Trim | 2021/22/aoc22.go:64-69 | trim keeps exactly the cells lying in both the cuboid and the region |
| Reactor.Vol | 2021/22/aoc22.go:71-76 | a proper cuboid has a positive volume |
| Reactor.NonEmpty | 2021/22/aoc22.go:43-48 | a cuboid holding a cell is proper: ok() holds |
| Reactor.Corners | 2021/22/aoc22.go:37-48 | a proper cuboid holds both of its corners |
| Reactor.ContainsCubes | 2021/22/aoc22.go:57-62 | for a proper d, c.contains(d) iff every cell of d is in c |
| Reactor.AabbCubes | 2021/22/aoc22.go:50-55 | for proper cuboids, aabb holds iff they share a cell |
| Reactor.ContainsOverlaps | 2021/22/aoc22.go:50-62 | a proper cuboid overlaps any proper cuboid that contains it |
| Reactor.TrimWithin | 2021/22/aoc22.go:64-69 | a proper trim lies in both the cuboid and the region |
| Reactor.Cut | 2021/22/aoc22.go:103-104 | cutting at k on an axis splits the cells into those below k and those at or above k |
| Reactor.CutOk | 2021/22/aoc22.go:102-104 | a cut strictly inside a proper cuboid leaves two proper halves |
| Reactor.CutVol | 2021/22/aoc22.go:102-104 | the two halves' volumes add up to the cuboid's |
| Reactor.AddOn | 2021/22/aoc22.go:95-115 | the axis loop of add falls through an axis exactly when the new cuboid lies within the node's span on it |
| Reactor.JoinKd | 2021/22/aoc22.go:98-112 | an inner node over two valid subtrees split by a plane lights exactly the cells of either |
| Reactor.DelOn | 2021/22/aoc22.go:127-150 | the axis loop of del falls through an axis exactly when the node lies within the cut cuboid's span on it |
| Reactor.AddCubes | 2021/22/aoc22.go:87-117 | add lights exactly the cells of the leaf and of the new cuboid, in a k-d tree with disjoint leaves, never nil; the panic at the end is unreachable |
| Reactor.AddOnCubes | 2021/22/aoc22.go:95-115 | the tree an axis step builds is the union of the leaf and the cuboid |
| Reactor.Apart | 2021/22/aoc22.go:97-100 | two cuboids apart on an axis make a node holding both |
| Reactor.AddBelow | 2021/22/aoc22.go:102-107 | the part of the cuboid below the leaf becomes its own leaf and the rest is added on the right |
| Reactor.AddAbove | 2021/22/aoc22.go:108-113 | the part of the cuboid above the leaf becomes its own leaf and the rest is added on the left |
| Reactor.Shared | 2021/22/aoc22.go:50-55 | two cuboids sharing a cell overlap |
| Reactor.DelCubes | 2021/22/aoc22.go:119-152 | del lights exactly the leaf's cells outside the cut cuboid, in a k-d tree; the panic at the end is unreachable |
| Reactor.DelOnCubes | 2021/22/aoc22.go:127-150 | the tree an axis step builds is the leaf minus the cuboid |
| Reactor.DelBelow | 2021/22/aoc22.go:128-138 | the leaf's slab below the cuboid is kept and the rest is cut recursively |
| Reactor.DelAbove | 2021/22/aoc22.go:139-149 | the leaf's slab above the cuboid is kept and the rest is cut recursively |
| Reactor.DelNil | 2021/22/aoc22.go:119-125 | del gives nil iff the cut cuboid contains the leaf, and the leaf unchanged when they do not overlap |
| Reactor.AddValid | 2021/22/aoc22.go:87-117 | add of two proper cuboids builds only proper leaves |
| Reactor.AddOnValid | 2021/22/aoc22.go:95-115 | the same for one axis step |
| Reactor.DelValid | 2021/22/aoc22.go:119-152 | del of a proper leaf builds only proper leaves |
| Reactor.DelOnValid | 2021/22/aoc22.go:127-150 | the same for one axis step |
| Reactor.DelBelowValid | 2021/22/aoc22.go:128-138 | the lower step builds only proper leaves |
| Reactor.DelAboveValid | 2021/22/aoc22.go:139-149 | the upper step builds only proper leaves |
| Reactor.Clip | 2021/22/aoc22.go:181-183 | clipping the step's cuboid to each side of a node's plane keeps exactly the cells on that side |
| Reactor.RebootCubes | 2021/22/aoc22.go:158-203 | reboot lights a cell iff it is in the cuboid when on, outside it when off, and otherwise as before; it keeps the tree a k-d tree with proper leaves |
| Reactor.RebootSplit | 2021/22/aoc22.go:180-197 | the same for an inner node |
| Reactor.JoinSwitch | 2021/22/aoc22.go:190-196 | dropping a nil side keeps the switched cells of the other side |
| Reactor.RebootSide | 2021/22/aoc22.go:184-189 | rebooting one side lights only cells of the side or of the clipped cuboid |
| Reactor.SumVolAppend | 2021/22/aoc22.go:205-214 | volume sums over two leaf lists add |
| Reactor.RecountLeaves | 2021/22/aoc22.go:205-214 | recount sums the volumes of the leaves |
| Reactor.AnyHoldsAppend | 2021/22/aoc22.go:205-214 | a cell is in two leaf lists together iff it is in either |
| Reactor.LeavesLit | 2021/22/aoc22.go:154-156 | a cell is lit iff some leaf holds it |
| Reactor.LeafLit | 2021/22/aoc22.go:154-156 | a cell in a leaf is lit |
| Reactor.LeavesDisjoint | 2021/22/aoc22.go:79-85 | no cell lies in two leaves of a k-d tree, so recount counts each lit cell once |
| Reactor.LastOnStep | 2021/22/aoc22.go:223-241 | after one more step, a cell is lit iff the step switches it on, or it was lit and the step does not switch it off |
| Reactor.RunLit | 2021/22/aoc22.go:240 | after the steps, a cell is lit in p2 iff the last step covering it was on |
| Reactor.RunRegionLit | 2021/22/aoc22.go:235-238 | p1 lights exactly the cells of the -50..50 region whose last covering step was on |
| Reactor.Reboots | 2021/22/aoc22.go:216-245 | the two answers count exactly the lit cells of both trees, p1 restricted to the -50..50 region |
| Uint128.At | 2023/14/aoc14.go:312-314 | each of the 128 positions of the two words holds a 0 or a 1 |
| Uint128.ShiftLe | 2023/14/aoc14.go:402-422 | shifting right never increases a number |
| Uint128.WordHigh | 2023/14/aoc14.go:312-314 | a uint64 has no bit at position 64 or above |
| Uint128.ShlBit | 2023/14/aoc14.go:395-397 | bit i of a uint64 shifted left by k is bit i-k, or 0 below k (0 for k of 64 or more) |
| Uint128.ShrBit | 2023/14/aoc14.go:417-419 | bit i of a uint64 shifted right by k is bit i+k |
| Uint128.Word2Bit | 2023/14/aoc14.go:430-452 | the word operators AND, OR and XOR act bit by bit |
| Uint128.ValBit | 2023/14/aoc14.go:312-314 | bit i of the number w1*2^64+w0 is position i of the pair |
| Uint128.ValBound | 2023/14/aoc14.go:305-314 | the pair spells a number below 2^128 |
| Uint128.ValZero | 2023/14/aoc14.go:307-314 | the number is 0 iff both words are 0 |
| Uint128.AtHigh | 2023/14/aoc14.go:305 | no position at 128 or above is set |
| Uint128.AtZero | 2023/14/aoc14.go:307-308 | zero128 has no set position |
| Uint128.SameBits | 2023/14/aoc14.go:312-314 | two pairs agreeing on all 128 positions are equal |
| Uint128.NoBits | 2023/14/aoc14.go:312-314 | a uint64 with no set bit is 0 |
| Uint128.OrZero | 2023/14/aoc14.go:316-318 | w1 OR w0 is 0 iff both words are 0 |
| Uint128.IsZeroVal | 2023/14/aoc14.go:316-318 | isZero holds iff the value is zero128, iff the number is 0 |
| Uint128.RshFarBit | 2023/14/aoc14.go:405-406 | above 128 rsh gives zero, so every position i is position i+n, which lies beyond the top |
| Uint128.RshWideBit | 2023/14/aoc14.go:407-410 | for n in 65..128, moving w1 into w0 and shifting by n-64 puts bit i+n at i |
| Uint128.RshNearBit | 2023/14/aoc14.go:413-419 | for n up to 64, the carry from w1 into w0 puts bit i+n at i |
| Uint128.RshBit | 2023/14/aoc14.go:402-422 | for every n >= 0, position i of rsh(n) is position i+n of the input |
| Uint128.RshValue | 2023/14/aoc14.go:402-422 | rsh(n) is the number divided by 2^n |
| Uint128.RshFar | 2023/14/aoc14.go:402-422 | rsh by 128 or more gives zero |
| Uint128.LshWideBit | 2023/14/aoc14.go:385-388 | for n in 65..128, moving w0 into w1 and shifting by n-64 puts bit i-n at i and zero below n |
| Uint128.LshNearBit | 2023/14/aoc14.go:391-397 | for n up to 64, the carry from w0 into w1 puts bit i-n at i and zero below n |
| Uint128.LshBit | 2023/14/aoc14.go:380-400 | for every n >= 0, position i of lsh(n) is position i-n of the input, 0 below n |
| Uint128.LshValue | 2023/14/aoc14.go:380-400 | lsh(n) is the number times 2^n, modulo 2^128 |
| Uint128.LshFar | 2023/14/aoc14.go:380-400 | lsh by 128 or more gives zero |
| Uint128.GetBit | 2023/14/aoc14.go:332-335 | get(n) is bit n of the number, 0 from 128 up |
| Uint128.MaskBit | 2023/14/aoc14.go:325-327 | 1 << (n & 0x3f) has exactly the bit n mod 64 set |
| Uint128.SetBit | 2023/14/aoc14.go:322-330 | set(n) turns position n on and leaves every other position as it was; outside 0..127 nothing changes |
| Uint128.ClearBit | 2023/14/aoc14.go:337-345 | clear(n) turns position n off and leaves every other position as it was; outside 0..127 nothing changes |
| Uint128.SetGet | 2023/14/aoc14.go:322-335 | after set(n), get(n) is 1 when n < 128 and get(m) for any other m is unchanged |
| Uint128.ClearGet | 2023/14/aoc14.go:332-345 | after clear(n), get(n) is 0 and get(m) for any other m is unchanged |
| Uint128.Count | 2023/14/aoc14.go:355-359 | the number of set bits among k is at most k |
| Uint128.CountSame | 2023/14/aoc14.go:355-359 | the count depends only on the bits counted |
| Uint128.CountHigh | 2023/14/aoc14.go:355-359 | counting over the 128 bits of the number is counting over w0 plus counting over w1 |
| Uint128.PopcntCount | 2023/14/aoc14.go:355-359 | popcnt is the number of set bits among the 128 |
| Uint128.CountZero | 2023/14/aoc14.go:355-359 | a count is 0 iff none of the counted bits is set |
| Uint128.PopcntZero | 2023/14/aoc14.go:355-359 | popcnt is 0 iff the value is zero |
| Uint128.Lz | 2023/14/aoc14.go:361-367 | LeadingZeros64: the top r bits are clear and, if r < 64, the next one down is set |
| Uint128.Tz | 2023/14/aoc14.go:369-374 | TrailingZeros64: the low r bits are clear and, if r < 64, bit r is set |
| Uint128.Lead0Bits | 2023/14/aoc14.go:361-367 | lead0 counts the clear positions from 127 down to the highest set one |
| Uint128.Trail0Bits | 2023/14/aoc14.go:369-374 | trail0 counts the clear positions from 0 up to the lowest set one |
| Uint128.ZerosOfZero | 2023/14/aoc14.go:361-374 | lead0 and trail0 are 128 exactly for zero |
| Uint128.Rev | 2023/14/aoc14.go:376-378 | reversing k bits gives a number below 2^k |
| Uint128.RevBit | 2023/14/aoc14.go:376-378 | bits.Reverse64 sends bit k-1-i to i |
| Uint128.ReverseBit | 2023/14/aoc14.go:376-378 | reverse sends position 127-i to i across both words |
| Uint128.ReverseTwice | 2023/14/aoc14.go:376-378 | reverse is an involution |
| Uint128.NotBit | 2023/14/aoc14.go:424-428 | not inverts every position |
| Uint128.NotNot | 2023/14/aoc14.go:424-428 | not is an involution |
| Uint128.BothBit | 2023/14/aoc14.go:430-452 | combining two values word by word applies the operator position by position |
| Uint128.FoldAnd | 2023/14/aoc14.go:430-436 | a position of u.and(m...) is set iff it is set in u and in every m[j] |
| Uint128.FoldOr | 2023/14/aoc14.go:438-444 | a position of u.or(m...) is set iff it is set in u or in some m[j] |
| Uint128.Parity | 2023/14/aoc14.go:446-452 | XOR of two bits adds them modulo 2 |
| Uint128.FoldXor | 2023/14/aoc14.go:446-452 | a position of u.xor(m...) is the parity of its count in u and all of m |
| Packets.Evals | 2021/16/aoc16.go:103-104 | the sub-results are the evaluations of the sub-segments, one each, in order |
| Packets.AddAllSum | 2021/16/aoc16.go:106-109 | the ADD loop leaves the wrapped int sum of the sub-results added to its start |
| Packets.MulAllProduct | 2021/16/aoc16.go:110-114 | the MUL loop leaves the wrapped int product of the sub-results times its start |
| Packets.MinAllLeast | 2021/16/aoc16.go:115-122 | the MIN loop leaves a value no greater than its start or any sub-result, and one of them |
| Packets.MaxAllGreatest | 2021/16/aoc16.go:123-130 | the MAX loop leaves a value no smaller than its start or any sub-result, and one of them |
| Packets.EvalAdd | 2021/16/aoc16.go:106-109 | ADD evaluates to the wrapped sum of its sub-results, 0 with none |
| Packets.EvalMul | 2021/16/aoc16.go:110-114 | MUL evaluates to the wrapped product of its sub-results, 1 with none |
| Packets.EvalMin | 2021/16/aoc16.go:115-122 | MIN evaluates to the least sub-result, which is one of them, and to MaxInt with none |
| Packets.EvalMax | 2021/16/aoc16.go:123-130 | MAX evaluates to the greatest sub-result, which is one of them, and to MinInt with none |
| Packets.EvalCompare | 2021/16/aoc16.go:131-147 | LIT gives its stored value; GT, LT and EQ give 1 exactly when their two first sub-results compare so and 0 otherwise; an unknown type gives 0 |
| Packets.SumVersions | 2021/16/aoc16.go:149-156 | the loop with its recursive call returns the versions of every segment of the datagram, descendants included |
| Packets.VersionListAppend | 2021/16/aoc16.go:149-156 | version totals of two segment lists add |
| Packets.VersionsFlat | 2021/16/aoc16.go:149-156 | sum counts each segment of the tree exactly once: it equals the version total of the pre-order listing of all segments |
| Packets.VersionsAppend | 2021/16/aoc16.go:149-156 | sum over two datagrams together is the sum of their sums |
| Alu.Push | 2021/24/aoc24.go:26-28 | push appends item{j, b} on top and keeps every item below |
| Alu.Pop | 2021/24/aoc24.go:30-35 | pop returns the top item and the stack below it, so pushing them back restores the stack |
| Alu.PopPush | 2021/24/aoc24.go:26-35 | pop undoes push |
| Alu.PopTwice | 2021/24/aoc24.go:26-35 | after two pushes the first pop yields the later item and the second the earlier one: last in, first out |
| Alu.AbsValue | 2021/24/aoc24.go:68-73 | abs is non-negative and is a or -a, except for MinInt, whose negation wraps back to MinInt |
| Alu.AbsNegate | 2021/24/aoc24.go:68-73 | abs(-a) == abs(a), with Go's wrapping negation |
| Alu.PowerSquare | 2021/24/aoc24.go:75-92 | (a*a)^m is a^(2m), the identity behind squaring a |
| Alu.WrapPower | 2021/24/aoc24.go:75-92 | wrapping the base to 64 bits does not change a power modulo 2^64 |
| Alu.StepOdd | 2021/24/aoc24.go:80-83 | on odd n, b = a*b, a = a*a keeps a^n * b unchanged modulo 2^64 |
| Alu.StepEven | 2021/24/aoc24.go:85-86 | on even n, a = a*a keeps a^n * b unchanged modulo 2^64 |
| Alu.Pow | 2021/24/aoc24.go:75-92 | pow(a, 0) is 1, pow(a, n) is a^n in wrapping int arithmetic for n >= 1, and a negative n returns a |
| Market.MixBit | 2024/22/aoc22.go:68-73 | xoring a mask below 2^k into a flips exactly the bits the mask sets |
| Market.MixBitHigh | 2024/22/aoc22.go:68-73 | a mask below 2^k leaves every bit of a from k up unchanged |
| Market.SplitBit | 2024/22/aoc22.go:68-73 | bit i of hi*2^k+lo is bit i of lo below k and bit i-k of hi from k up |
| Market.XorZero | 2024/22/aoc22.go:68-73 | a bit xored with 0 is unchanged |
| Market.MixHigh | 2024/22/aoc22.go:69-71 | one masked xorshift step leaves the bits from k up alone and keeps a number below 2^k below 2^k |
| Market.HashRange | 2024/22/aoc22.go:68-73 | hash maps [0, 2^24) into [0, 2^24) and never touches the bits from 24 up |
| Market.Prices | 2024/22/aoc22.go:49-52 | n rounds give n+1 prices |
| Market.PricesAt | 2024/22/aoc22.go:49-52 | price j is the last decimal digit of the secret after j rehashes |
| Market.PricesDigits | 2024/22/aoc22.go:49-52 | every price is a digit 0..9 |
| Market.Change | 2024/22/aoc22.go:54 | the offset price change nxt - cur + VOFF lies in 0..18 |
| Market.Key | 2024/22/aoc22.go:55 | the running key always indexes the MAXDIM-long tables |
| Market.RollMod | 2024/22/aoc22.go:55 | ((key << 5) AND MAXDIM) + d keeps the key's 15 low bits moved up five, plus d |
| Market.RollBound | 2024/22/aoc22.go:54-55 | a rolled key with an offset change stays within [0, MAXDIM) |
| Market.PackLess | 2024/22/aoc22.go:54-55 | w packed changes fit in 5w bits |
| Market.SpanMono | 2024/22/aoc22.go:54-55 | 32^v is at most 32^w for v <= w |
| Market.PackFour | 2024/22/aoc22.go:54-55 | four packed changes are the changes as four base-32 digits, the latest lowest |
| Market.PackTop | 2024/22/aoc22.go:54-55 | the oldest of four packed changes is the top digit |
| Market.Width | 2024/22/aoc22.go:54-55 | the key packs at most four changes, and no more than there have been |
| Market.KeyWindow | 2024/22/aoc22.go:49-55 | after t rounds the key packs exactly the last min(t, 4) price changes |
| Market.KeyEarly | 2024/22/aoc22.go:54-55 | in the first four rounds the key gains one change per round |
| Market.KeyLate | 2024/22/aoc22.go:54-55 | from round 5 on the mask drops the oldest change and the key still packs the last four |
| Market.RollSmall | 2024/22/aoc22.go:55 | a key below 2^15 is shifted up five bits whole |
| Market.RollTop | 2024/22/aoc22.go:55 | the mask discards whatever lies above the key's 15 low bits |
| Market.SameKey | 2024/22/aoc22.go:54-57 | from round 4 on, two keys are equal iff their four price changes are equal |
| Market.KeyFour | 2024/22/aoc22.go:54-55 | from round 4 on, the key is the four last changes as base-32 digits |
| Market.Digits32 | 2024/22/aoc22.go:54-55 | four base-32 digits are determined by the number they spell |
| Market.Find | 2024/22/aoc22.go:57-60 | the first round in lo..n whose key is k, if any, with no earlier round in range meeting k |
| Market.FindNext | 2024/22/aoc22.go:50-60 | extending the rounds by one keeps an earlier first meeting and otherwise finds the new round exactly when its key is k |
| Market.Turn | 2024/22/aoc22.go:57-60 | a counted round adds the price under its key unless SEEN holds the color there, stores the color, and touches no other key |
| Market.Tables | 2024/22/aoc22.go:45-63 | the tables keep their MAXDIM length |
| Market.TablesFind | 2024/22/aoc22.go:45-63 | after the rounds SEEN holds the color exactly under the keys met in a counted round, and seqs has gained under each key the price at its first counted meeting, unless SEEN held the color before: each key is credited at most once per seed |
| Market.Round | 2024/22/aoc22.go:50-52 | one loop round moves the secret and the price on by one rehash |
| Market.KeyStep | 2024/22/aoc22.go:54-55 | one loop round moves the running key on by one round |
| Market.Rehash | 2024/22/aoc22.go:45-66 | rehash returns hash applied n times (none for n <= 0) and leaves the tables as the rounds from round 5 on credit them, under keys all within [0, MAXDIM) |
| Market.FourthSkipped | 2024/22/aoc22.go:57 | a first window met only in round 4 earns nothing as written, and the price of round 4 when counted from round 4 |
| Market.FourthSkippedExample | 2024/22/aoc22.go:57 | on the prices 0 1 2 3 4 the window of four rises is worth 0 as written and 4 counted from round 4 |
| Market.Market | 2024/22/aoc22.go:31-34 | rehashing every buyer in turn keeps the tables' MAXDIM length |
| Market.MarketTotal | 2024/22/aoc22.go:31-34 | with pairwise different seeds absent from SEEN, seqs[k] ends as the sum over buyers of the price at each one's first counted meeting of k |
| Market.Max | 2024/22/aoc22.go:36 | slices.Max returns an entry no smaller than any other |
| Market.Solve | 2024/22/aoc22.go:26-39 | part 1 is the sum of the NLOOP-th secrets; part 2 is the largest table entry, and with distinct non-zero seeds the best total any key earns over all buyers |
| Market.Zeros | 2024/22/aoc22.go:27 | make([]int, MAXDIM) is MAXDIM zeros |

## Left out

Fixed-width arithmetic the model leaves unbounded:
- Extrapolate.Diff: the differences are unbounded integers; Go's `a[i+1] - a[i]` in int64 (2023/9/aoc9.go:44) can wrap, and that wrap-around is not modelled. IsZero does read int64 bits, so the entries are assumed to fit in int64.
- Extrapolate.NextExtends: `a[0] - L` and `a[len(a)-1] + R` (2023/9/aoc9.go:52) are unbounded, so the extension property is stated without int64 wrap-around.
- Calibration.Recheck: `acc/nums[0]`, `acc-nums[0]` and the concatenation through `mask` (2024/7/aoc7.go:58-66) are unbounded, with no int64 wrap-around.
- Claw.Solve: the Cramer products and the offset 10_000_000_000_000 (2024/13/aoc13.go:56-76) are unbounded, with no int64 overflow.
- Lanternfish.Incube: the uint64 counters (2021/6/aoc6.go:21-36) are unbounded naturals, so no wrap-around after many days.
- Lanternfish.Population: for the same reason, the count after n days is exact where uint64 would wrap.
- Reactor.Vol: volumes and the recount sum (2021/22/aoc22.go:71-76, 205-214) are unbounded; int64 overflow is not modelled.
- Packets.SumVersions: the version sum is an unbounded natural where Go's int could wrap; eval itself does wrap (`Int64.Wrap`).
- Dirac.SolveRef: the universe counts of 2021/21 are unbounded; uint64 overflow is not modelled.
- Machines.Part1: the source's int32 and uint16 arithmetic is unbounded here.
- Machines.Part1: BFS levels are sets, not the source's FIFO queue. The order patterns are queued in does not change the level at which one is first found.
- Network.BinaryGcd: the conversion to uint and the 64-bit overflow of the products in lcm are not modelled.
- Market.Solve: sum1 is an unbounded sum, and `key << 5` is computed before the mask without int overflow (the mask keeps 20 bits, so nothing is lost).
- Market.Hash: only non-negative secrets are modelled; atoi reads digits only, so this is every secret the input can hold.

Panics in the source turned into preconditions:
- Decimal.Itoa: requires n < 10^10, because Go's `buf[i]` with MaxDigits = 10 panics for a longer number (2025/2/aoc2.go:84-89).
- Calibration.Recheck: the operands are required positive (Positive), because `acc%nums[0]` panics on a zero operand (2024/7/aoc7.go:66).
- Calibration.CheckPlain: requires the same positive operands, for the same reason.
- Calibration.Check: requires positive operands after the target, for the same reason.
- Extrapolate.Next: requires a non-empty row, because `make([]int, len(a)-1)` panics on an empty one (2023/9/aoc9.go:41).
- Extrapolate.Depth: requires a non-empty row, because `next` reads `a[0]` (2023/9/aoc9.go:41-52) and panics on an empty one.
- Joltage.Largest: requires size <= len(line), because Go's `digits[:size]` panics on a shorter line (2025/3/aoc3.go:83-88).
- Lenses.MakeOp: requires a well-formed step ("name-" or "name=N"), because mkop panics or misreads anything else (2023/15/aoc15.go:62-73).
- UnionFind.Find: requires a forest (every parent chain reaches a root); on a cyclic parent array the Go loop does not end.
- UnionFind.Union: requires a forest, for the same reason.
- Mixing.Step: requires a deck of at least two items, because Go's `% (n-1)` divides by zero otherwise (2022/20/aoc20.go:69-127).
- Grove.Shuffle: requires that a one-number input is not mixed, for the same reason.
- Grove.Key: requires a non-empty list, because key's `%` divides by the length.
- Claw.Solve: requires at least six numbers per machine, because the Go indexing panics on fewer.
- Network.Lcm: requires positive entries; it proves that every entry divides the result, but not that the result is the least common multiple.
- Machines.Cdiv: carries no ensures for a negative divisor, which the source never passes.
- Machines.Fdiv: likewise carries no ensures for a negative divisor.
- Spans.Cover: the point count is stated for valid (start <= end) spans only.
- Crates.Cut: requires an existing stack s holding at least n crates, because Go's `w[s][i-n:]` panics otherwise (2022/5/aoc5.go:45-49).
- Crates.Pop: requires the same, because pop calls cut.
- Crates.Move: requires existing source and target stacks and at least n crates on the source, in both worlds, for the same reason.
- Camel.NewHand: requires five cards of the deck (ValidHand). On an unknown card ctoi gives -1 and `buf[n]++` panics; a sixth card makes the shift `16-(i<<2)` negative and panics; a hand of fewer than five cards is accepted by Go and left out here (2023/7/aoc7.go:113-122). Every hand main reads has five cards.
- Packets.Eval: requires Valid, which demands two sub-packets for GT, LT and EQ, because Go indexes `args[0]` and `args[1]` unchecked (2021/16/aoc16.go:131-147). Packets.EvalCompare states the comparison for such packets only.
- Alu.Pop: requires a non-empty stack, because Go's `stack[len(stack)-1]` panics on an empty one (2021/24/aoc24.go:30-35).
- Ropes.GridAdd: requires the hash to fall inside the grid, because `s.data[i]` panics outside it (2022/9/aoc9.go:115-127).
- Bingo.Add: requires a row and a column in 0..4, because `ca.row[r]` and `ca.col[c]` panic outside them (2021/4/aoc4.go:37-41).
- Network.Hash: requires a three-letter upper-case name (IsName). Go hashes any three bytes, which gives numbers outside 0..17575 for other letters (2023/8/aoc8.go:133-141).
- Machines.Part1: requires a bounding width as the last entry and every other switch mask below 2^w (InRange), because `bmasks[nxt]` panics on a pattern outside the table (2025/10/aoc10.go:87-109).

Bytes and characters:
- Lenses.Hash: adds each character's code point. Go's `s[i]` adds the first UTF-8 byte of each character (2023/15/aoc15.go:36-41). The two agree on ASCII, which is all the input holds.
- Towels.InsertFind: the trie is keyed by character, where build keys it by `byte(x)`, the low byte of each rune (2024/19/aoc19.go:80-84). The two agree on ASCII.

Other deliberate simplifications:
- Snailfish.Join: treats the empty snum as the zero of addition. Go tests `reflect.DeepEqual(a, snum{})` (2021/18/aoc18.go:79), which holds only for nil slices, not for empty non-nil ones; the program only ever starts from `snum{}`.
- Ropes.Repeat: states the visited sets as exact sets of positions (Visit). The program's set.add (2022/9/aoc9.go:115-127) is the hashed grid GridAdd, whose hash collides (see Findings), so the program's count can be lower than the exact one.
- Reports: clone (2024/2/aoc2.go) is the identity on immutable sequences.
- Permutation: the loop in main that visits all 120 phase orders is not modelled; Next and its successor proof are.
- Races.Log2Floor: log2 is proved on bv64, and the integer FloorLog separately. The link between the two for every 64-bit input is not proved beyond the de Bruijn table lemmas.
- Incidence: trans32 is modelled as its five passes with their masks rather than as one in-place loop over the array.
- Stones: strip (2024/11/aoc11.go:93-99) is never called by the program and is not modelled.
- DiskMap: Compact and Realloc (2024/9/aoc9.go:199-246), which part 1 uses, and Clone are not modelled; Defrag, Move, Size, Free and Checksum are.
- Bingo: the draw loop and the push/deq/pop stack of winning cards (2021/4/aoc4.go:97-152) are not modelled; add, biff and sum are.
- Aplenty: the filter/process loops over the workflow map (2023/19/aoc19.go:185-245) are not modelled beyond one rule application; the order of the stack and of map iteration is not modelled.
- Camel: main's reading, sorting and winnings sum are not modelled; the hand encoding and cmp are.
- Uint128: String, hi64 and lo64 are not modelled, and neither are negative shift counts, which panic in Go.
- Packets: the bitstream reader (lit, subs, load) is an external package and is not modelled.
- Alu: main's loop over the 14 input blocks is not modelled; push, pop, abs and pow are.
- Market: the seen table SEEN is a parameter of rehash, not a global. MarketTotal needs pairwise different seeds, because equal seeds share a colour.
- Decimal: main's summation over the id ranges is not modelled; the per-id tests are.
- Dirac: input parsing is not modelled.
- Snafu: parsing of the input lines is not modelled.
- The atoi helpers that only read input digits are not modelled in every file.
- Palindromes: the debugging `print` calls inside the scan (2023/13/fastpal.py:17 and :28) are output only and are left out.
- Machines: part 2, the integer linear programming search of 2025/10, is not modelled.
- Network: the walk over the node map in main is not modelled; hash, isroot, isgoal, gcd and lcm are.

## Findings

| source | as written | input that shows it | evidently intended | confidence | as-written member | corrected member |
|---|---|---|---|---|---|---|
| 2023/19/aoc19.go:146-147 | split keeps a half only when lo < hi, but spans are inclusive, so a one-value half is dropped | cutting the full box at x < 2 loses the part (1,1,1,1) | keep a half whenever lo <= hi | not executed | Aplenty.SplitDropsPoint | Aplenty.SplitFixedPoints |
| 2023/6/aoc6.go:32-47 | solve answers -1 when t^2 = 4d, and uint64(t^2-4d) wraps when t^2 < 4d | t=2 d=1 gives -1; t=1 d=1 gives 4294967294 | 0 winning holds in both cases | not executed | Races.SolveAsWritten | Races.Solve |
| 2023/8/aoc8.go:199-215 | asString's digit loop stops when the number becomes 0, dropping leading 'A's | node 0 ("AAA") and any number below 676 | three letters for every node | not executed | Network.AsStringDropsA | Network.Name |
| 2025/1/aoc1.go:31-49 | pwd1 counts a landing on 0 only when the dial was not already on 0 | from 0, "R100" ends on 0 and is not counted | count every command that ends on 0 | not executed | Dial.LandingFromZeroMissed | Dial.TurnFixedCounts |
| 2021/4/aoc4.go:49 | biff reports a win when a row or column sum reaches 0, which an undrawn 0 does not change | a row 0 1 2 3 4 with 1..4 drawn | report a win only when every number of the line is drawn | not executed | Bingo.BiffEarlyWin | Bingo.BiffFixed |
| 2024/9/aoc9.go:118-128 | defrag reads fs.free[0] without checking that a free block is left | the disk "111" | stop when no free block is left | not executed | DiskMap.DefragShort | DiskMap.Defrag |
| 2024/22/aoc22.go:57 | the test i > 3 starts crediting at round 5, though round 4 already has four price changes | the prices 0 1 2 3 4 | credit from round 4 (i >= 3) | not executed | Market.FourthSkipped | Market.MarketTotal |
| 2025/10/aoc10.go:86-122 | part1 never answers the all-off pattern and reaches panic("unreached") | a machine whose target lights are all off | answer 0 presses | not executed | Machines.Part1 | Machines.Part1Fixed |
| 2022/9/aoc9.go:116-122 | the grid hash 256*(x+257)+y maps different positions to one cell | (0,0) and (1,-256) | one cell per position | not executed | Ropes.GridCollision | Ropes.Visit |
