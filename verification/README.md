# ds-algo core, modelled in Dafny

This project models the algorithm exercises of the ds-algo repository:

- the sliding-window problems (max sum of a window of size `k`, smallest subarray with a given sum, longest substring with `k` distinct characters, fruits into baskets, longest substring without repeats, longest substring after letter replacement, longest subarray of ones after replacement, permutation in a string);
- the two-pointer problems (pair with target sum, remove duplicates, Dutch national flag, squares of a sorted array, subarrays with product below a target, three sum close to a target, three sum smaller, three sum to zero, two sum and two sum on sorted input);
- the fast/slow-pointer problems (happy number, middle of a linked list, linked list cycle);
- the in-memory database with timestamped values;
- the two in-memory file systems: the path/content tree, and the tree of directory and file nodes with sizes.

Each function of the repository becomes a Dafny `method` or `function`. Its contract relates the answer to an independent description of the problem. For example, a longest-window answer is stated as "no qualifying window is longer, and one has this length", not as the steps of the scan. Uniqueness lemmas show that such a description pins the answer down. The examples given in each file's docstring and `__main__` block become lemmas about that description.

Python lists become `seq` and strings become `seq<char>`. Dictionaries that index values become `map`, and letter counts become `multiset`. The dictionaries of the two file systems become `AssocLists.Assoc` association lists kept in insertion order, because listing a directory follows Python's dict order. Where a function sorts its argument in place, its model returns the sorted list next to the answer. Linked-list nodes are modelled by their positions. A `next` sequence holds each node's successor, and `-1` (or the length, for a straight list) stands for `None`.

Shared helper modules:

- `Seqs`: sums, sortedness, `SortInts`, the integer range set.
- `Windows`: the first passing start of a window ending at a position, and the longest passing window.
- `Triples`: increasing position triples and their sums.
- `Strings`: ordering and sorting of names.
- `AssocLists` and `Paths`: directory listings and path splitting.
- `Wrappers`: `Option`, with `GetOr` for a default.

The exceptions the dictionary file system raises are modelled by `LcFileSystem.Outcome`: a value, or the class of the exception raised.

## Model

| member | source | states |
|---|---|---|
| MaxSumSubarray.MaxSubarrayOfSizeK | sliding-window/01-max-sum-subarray-of-size-k.py:33-37 | the answer is at least every window sum of size `k`, is never below 0, and is either 0 or the sum of some window |
| MaxSumSubarray.SlidingMaxSum | sliding-window/01-max-sum-subarray-of-size-k.py:39-49 | the running-sum version meets the same description: the largest window sum of size `k`, floored at 0 |
| MaxSumSubarray.MaxWindowSumUnique | sliding-window/01-max-sum-subarray-of-size-k.py:33-49 | at most one value meets that description, so both versions agree on every input |
| MaxSumSubarray.ExampleOne | sliding-window/01-max-sum-subarray-of-size-k.py:52 | `[2, 1, 5, 1, 3, 2]` with `k = 3` answers 9 |
| MaxSumSubarray.ExampleTwo | sliding-window/01-max-sum-subarray-of-size-k.py:53 | `[2, 3, 4, 1, 5]` with `k = 2` answers 7 |
| SmallestSubarray.SmallestSubarrayWithGivenSum | sliding-window/02-smallest-subarray-with-a-given-sum.py:34-43 | on positive numbers: when some subarray reaches the sum, the answer is the length of a shortest one; otherwise it is the length of the array |
| SmallestSubarray.SolSmallestSubarrayWithGivenSum | sliding-window/02-smallest-subarray-with-a-given-sum.py:47-59 | the same shortest length, and 0 when no subarray reaches the sum |
| SmallestSubarray.ShrinkWhileReaching | sliding-window/02-smallest-subarray-with-a-given-sum.py:39-42 | the inner loop stops at the first start whose window falls below the sum; every earlier start reaches it, and the best length covers all of them |
| SmallestSubarray.NoneFromStart | sliding-window/02-smallest-subarray-with-a-given-sum.py:39 | with positive numbers, a window below the sum stays below it when its start moves right |
| SmallestSubarray.ShortestUnique | sliding-window/02-smallest-subarray-with-a-given-sum.py:19-25 | at most one length is the shortest qualifying length |
| SmallestSubarray.ExampleOne | sliding-window/02-smallest-subarray-with-a-given-sum.py:63 | `[2, 1, 5, 2, 3, 2]` with sum 7 answers 2 |
| SmallestSubarray.ExampleTwo | sliding-window/02-smallest-subarray-with-a-given-sum.py:64 | `[2, 1, 5, 2, 8]` with sum 8 answers 1 |
| SmallestSubarray.ExampleThree | sliding-window/02-smallest-subarray-with-a-given-sum.py:65 | `[3, 4, 1, 1, 6]` with sum 8 answers 3 |
| SmallestSubarray.NoWindowGivesLength | sliding-window/02-smallest-subarray-with-a-given-sum.py:36 | `[1, 1]` has no subarray reaching 5 |
| SmallestSubarray.NoWindowAnswers | sliding-window/02-smallest-subarray-with-a-given-sum.py:36-59 | on `[1, 1]` with sum 5 the first version answers 2 and the second answers 0 |
| Windows.FirstStart | sliding-window/03-longest-substring-with-k-distinct-characters.py:58-63 | the start where the shrinking loop stops: its window passes, and no earlier start does |
| Windows.Longest | sliding-window/03-longest-substring-with-k-distinct-characters.py:53-65 | the longest passing window among the first `m` positions: no passing window is longer, and one has this length |
| Windows.RecordWindow | sliding-window/03-longest-substring-with-k-distinct-characters.py:64 | recording the window at the first passing start extends the longest length to one more position |
| KDistinct.SolLongestSubstringWithKDistinct | sliding-window/03-longest-substring-with-k-distinct-characters.py:49-65 | the length of the longest substring with no more than `k` distinct characters |
| KDistinct.LongestSubstringWithKDistinct | sliding-window/03-longest-substring-with-k-distinct-characters.py:18-47 | the length of the longest substring with exactly `k` distinct characters, or 0 when none has exactly `k` |
| KDistinct.AddAndShrink | sliding-window/03-longest-substring-with-k-distinct-characters.py:36-44 | after one character enters and the loop shrinks, the window starts at the first start with at most `k` distinct characters, and the counts are that window's |
| KDistinct.ShrinkStep | sliding-window/03-longest-substring-with-k-distinct-characters.py:39-44 | dropping the leftmost character lowers its count by one, and the window still ends after the first passing start |
| KDistinct.KindsOfWindow | sliding-window/03-longest-substring-with-k-distinct-characters.py:39 | the number of keys in the count dictionary is the number of distinct characters of the window |
| KDistinct.DistinctMono | sliding-window/03-longest-substring-with-k-distinct-characters.py:39-44 | a window inside another has no more distinct characters |
| KDistinct.ExactStep | sliding-window/03-longest-substring-with-k-distinct-characters.py:45-46 | recording the window only when it has exactly `k` kinds keeps the longest exact length |
| KDistinct.LongestAtMostKUnique | sliding-window/03-longest-substring-with-k-distinct-characters.py:3 | at most one length is the longest with at most `k` kinds |
| KDistinct.LongestExactUnique | sliding-window/03-longest-substring-with-k-distinct-characters.py:45-47 | at most one length is the longest with exactly `k` kinds |
| KDistinct.ExampleAraaciTwo | sliding-window/03-longest-substring-with-k-distinct-characters.py:69 | the first version's answer on "araaci" with `K = 2`, the longest substring with exactly two kinds, is 4 |
| KDistinct.ExampleAraaciOne | sliding-window/03-longest-substring-with-k-distinct-characters.py:70 | the first version's answer on "araaci" with `K = 1`, the longest substring with exactly one kind, is 2 |
| KDistinct.ExampleCbbebiThree | sliding-window/03-longest-substring-with-k-distinct-characters.py:71 | the first version's answer on "cbbebi" with `K = 3`, the longest substring with exactly three kinds, is 5 |
| KDistinct.SolExampleAraaciTwo | sliding-window/03-longest-substring-with-k-distinct-characters.py:72 | the second version's answer on "araaci" with `K = 2`, the longest substring with at most two kinds, is 4 |
| KDistinct.SolExampleAraaciOne | sliding-window/03-longest-substring-with-k-distinct-characters.py:73 | the second version's answer on "araaci" with `K = 1` is 2 |
| KDistinct.SolExampleCbbebiThree | sliding-window/03-longest-substring-with-k-distinct-characters.py:74 | the second version's answer on "cbbebi" with `K = 3` is 5 |
| KDistinct.FewerKindsAnswersZero | sliding-window/03-longest-substring-with-k-distinct-characters.py:45-46 | on "aa" with `k = 2` the first version answers 0 |
| KDistinct.FewerKindsSolAnswersTwo | sliding-window/03-longest-substring-with-k-distinct-characters.py:64 | on "aa" with `k = 2` the second version answers 2 |
| FruitsIntoBaskets.FruitsInBaskets | sliding-window/04-fruits-into-baskets.py:17-32 | the longest run of trees with exactly two fruit types, or 0 when there is none |
| FruitsIntoBaskets.SolFruitsInBaskets | sliding-window/04-fruits-into-baskets.py:34-50 | the longest run of trees with at most two fruit types |
| FruitsIntoBaskets.ExampleOne | sliding-window/04-fruits-into-baskets.py:53 | `['A', 'B', 'C', 'A', 'C']` answers 3 |
| FruitsIntoBaskets.SolExampleOne | sliding-window/04-fruits-into-baskets.py:55 | the second version answers 3 on the same trees |
| FruitsIntoBaskets.ExampleTwo | sliding-window/04-fruits-into-baskets.py:54 | `['A', 'B', 'C', 'B', 'B', 'C']` answers 5 |
| FruitsIntoBaskets.SolExampleTwo | sliding-window/04-fruits-into-baskets.py:56 | the second version answers 5 on the same trees |
| FruitsIntoBaskets.OneTypeAnswersZero | sliding-window/04-fruits-into-baskets.py:30-31 | a row of one fruit type answers 0 in the first version |
| FruitsIntoBaskets.OneTypeSolAnswersThree | sliding-window/04-fruits-into-baskets.py:49 | the same row answers 3 in the second version |
| NoRepeatSubstring.NonRepeatSubstring | sliding-window/05-longest-substring-with-characters.py:32-43 | the length of the longest substring without a repeated character |
| NoRepeatSubstring.SolNonRepeatSubstring | sliding-window/05-longest-substring-with-characters.py:45-55 | the same length |
| NoRepeatSubstring.LastIndicesMeaning | sliding-window/05-longest-substring-with-characters.py:41 | the index dictionary maps each character seen to its last position so far |
| NoRepeatSubstring.NextStart | sliding-window/05-longest-substring-with-characters.py:39-40 | jumping past the last occurrence of the incoming character gives the first start without a repeat |
| NoRepeatSubstring.LongestUnrepeatedUnique | sliding-window/05-longest-substring-with-characters.py:3 | at most one length is the longest without repeats |
| NoRepeatSubstring.ExampleOne | sliding-window/05-longest-substring-with-characters.py:58 | "aabccbb" answers 3 |
| NoRepeatSubstring.ExampleTwo | sliding-window/05-longest-substring-with-characters.py:59 | "abbbb" answers 2 |
| NoRepeatSubstring.ExampleThree | sliding-window/05-longest-substring-with-characters.py:60 | "abccde" answers 3 |
| LetterReplacement.LengthOfLongestSubstring | sliding-window/06-longest-substring-with-same-letters-after-replacement.py:27-45 | the length of the longest substring that at most `k` replacements turn into a run of one letter |
| LetterReplacement.SolLengthOfLongestSubstring | sliding-window/06-longest-substring-with-same-letters-after-replacement.py:47-61 | the same length |
| LetterReplacement.FixableIsMode | sliding-window/06-longest-substring-with-same-letters-after-replacement.py:39 | a window can be made uniform with `k` replacements exactly when its length minus its largest letter count is at most `k` |
| LetterReplacement.ModeBound | sliding-window/06-longest-substring-with-same-letters-after-replacement.py:36 | `max(letter_counter.values())` is at least the count of every letter |
| LetterReplacement.ModeAttained | sliding-window/06-longest-substring-with-same-letters-after-replacement.py:36 | that maximum is the count of some letter of the window |
| LetterReplacement.MaxValue | sliding-window/06-longest-substring-with-same-letters-after-replacement.py:36 | the result is at least every count in the table and, when the table is not empty, equals one of them |
| LetterReplacement.ReplaceTurn | sliding-window/06-longest-substring-with-same-letters-after-replacement.py:32-44 | one turn of the loop keeps the answer equal to the longest fixable window so far, even though the count used to shrink is not recomputed |
| LetterReplacement.LongestFixableUnique | sliding-window/06-longest-substring-with-same-letters-after-replacement.py:4 | at most one length is the longest fixable |
| LetterReplacement.ExampleOne | sliding-window/06-longest-substring-with-same-letters-after-replacement.py:64 | "aabccbb" with `k = 2` answers 5 |
| LetterReplacement.ExampleTwo | sliding-window/06-longest-substring-with-same-letters-after-replacement.py:65 | "abbcb" with `k = 1` answers 4 |
| LetterReplacement.ExampleThree | sliding-window/06-longest-substring-with-same-letters-after-replacement.py:66 | "abccde" with `k = 1` answers 3 |
| OnesReplacement.LengthOfLongestSubstring | sliding-window/07-longest-subarray-with-ones-after-replacement.py:32-43 | the answer is the length of the window the scan ends with: the longest suffix with at most `k` zeros, not the longest such subarray |
| OnesReplacement.SolLongestSubstring | sliding-window/07-longest-subarray-with-ones-after-replacement.py:45-56 | on a non-empty array, the same longest fixable suffix |
| OnesReplacement.LongestOnesAfterReplacement | sliding-window/07-longest-subarray-with-ones-after-replacement.py:42 | with `max_length` kept as a running maximum, the length of the longest subarray with at most `k` zeros |
| OnesReplacement.OnesTurn | sliding-window/07-longest-subarray-with-ones-after-replacement.py:36-41 | one turn of the loop moves the left end to the first start whose window has at most `k` zeros, and keeps the count of ones of that window |
| OnesReplacement.SuffixFromFirstStart | sliding-window/07-longest-subarray-with-ones-after-replacement.py:38-43 | the window from the first passing start to the end is the longest fixable suffix |
| OnesReplacement.LongestFixableSuffixUnique | sliding-window/07-longest-subarray-with-ones-after-replacement.py:32-43 | at most one length is the longest fixable suffix |
| OnesReplacement.LongestFixableUnique | sliding-window/07-longest-subarray-with-ones-after-replacement.py:20-21 | at most one length is the longest fixable subarray |
| OnesReplacement.ExampleOne | sliding-window/07-longest-subarray-with-ones-after-replacement.py:61 | `[0, 1, 1, 0, 0, 0, 1, 1, 0, 1, 1]` with `k = 2` answers 6 |
| OnesReplacement.ExampleTwo | sliding-window/07-longest-subarray-with-ones-after-replacement.py:62 | `[0, 1, 0, 0, 1, 1, 0, 1, 1, 0, 0, 1, 1]` with `k = 3` answers 9 |
| OnesReplacement.FinalWindowOnly | sliding-window/07-longest-subarray-with-ones-after-replacement.py:42 | `[1, 1, 0]` with `k = 0` answers 0, although `[1, 1]` has no zero |
| OnesReplacement.FinalWindowOnlyCorrected | sliding-window/07-longest-subarray-with-ones-after-replacement.py:42 | the running maximum answers 2 on the same input |
| PermutationInString.FindPermutation | sliding-window/challenge-01-permutation-in-a-string.py:22-40 | on a non-empty string, true exactly when every character of the string occurs in the pattern no more often than in the string |
| PermutationInString.Tally | sliding-window/challenge-01-permutation-in-a-string.py:31-33 | the count dictionary has a key for each character of the string, mapped to its number of occurrences |
| PermutationInString.Untally | sliding-window/challenge-01-permutation-in-a-string.py:34-36 | taking the pattern off keeps the keys and lowers each count by that character's occurrences in the pattern |
| PermutationInString.MinValue | sliding-window/challenge-01-permutation-in-a-string.py:37 | the result is at most every value of the dictionary and is one of them |
| PermutationInString.SolFindPermutation | sliding-window/challenge-01-permutation-in-a-string.py:42-64 | true exactly when the string is not empty and holds every pattern character at least as often as the pattern |
| PermutationInString.TakeRight | sliding-window/challenge-01-permutation-in-a-string.py:50-54 | reading one more character keeps the counter equal to the pattern's counts minus those of the prefix read, and the matched count equal to the number of keys at zero |
| PermutationInString.AllMatched | sliding-window/challenge-01-permutation-in-a-string.py:55 | the matched count equals the number of keys exactly when no count is still positive |
| PermutationInString.LackingCovers | sliding-window/challenge-01-permutation-in-a-string.py:55-56 | the prefix read covers the pattern exactly when no count in the counter is still positive |
| PermutationInString.HasPermutationWindow | sliding-window/challenge-01-permutation-in-a-string.py:3 | true exactly when some substring of the pattern's length is a permutation of the pattern |
| PermutationInString.ContainsCovers | sliding-window/challenge-01-permutation-in-a-string.py:3 | a string that contains a permutation of the pattern covers the pattern |
| PermutationInString.CoversSeen | sliding-window/challenge-01-permutation-in-a-string.py:37-40 | a string that covers the pattern passes the first version's test |
| PermutationInString.ExampleOne | sliding-window/challenge-01-permutation-in-a-string.py:67 | "oidbcaf" with pattern "abc" answers true |
| PermutationInString.ExampleTwo | sliding-window/challenge-01-permutation-in-a-string.py:68 | "odicf" with pattern "dc" answers true in the first version |
| PermutationInString.OdicfNoWindow | sliding-window/challenge-01-permutation-in-a-string.py:9-11 | no substring of "odicf" is a permutation of "dc" |
| PermutationInString.ExampleThree | sliding-window/challenge-01-permutation-in-a-string.py:69 | "bcdxabcdy" with pattern "bcdyabcdx" answers true |
| PermutationInString.MissingCharIgnored | sliding-window/challenge-01-permutation-in-a-string.py:34-36 | on "ab" with pattern "abc" the first version answers true, but the string does not cover the pattern |
| PermutationInString.SolExampleOne | sliding-window/challenge-01-permutation-in-a-string.py:74 | "aaacb" covers "abc", so the second version answers true |
| PermutationInString.EidboaooCovered | sliding-window/challenge-01-permutation-in-a-string.py:75 | "eidboaoo" covers "ab", so the second version answers true |
| PermutationInString.EidboaooNoWindow | sliding-window/challenge-01-permutation-in-a-string.py:70 | no substring of "eidboaoo" is a permutation of "ab" |
| TwoSum.TwoSum | two-pointers/07-two-sum.py:20-26 | `[]` exactly when no two different positions add up to the target; otherwise such a pair, whose first position is the smallest taking part in any pair and whose second is the last position holding the complement |
| TwoSum.Scan | two-pointers/07-two-sum.py:22-26 | the answer is the first position that passes the dictionary test, paired with the position the dictionary gives, or `[]` when none passes |
| TwoSum.LastIndex | two-pointers/07-two-sum.py:21 | the `{item: i for i, item in enumerate(nums)}` index over the first `n` positions, later positions overwriting earlier ones; stated by `LastIndexSpec` |
| TwoSum.LastIndexSpec | two-pointers/07-two-sum.py:21 | the comprehension maps every value to the last position holding it, and holds no other keys |
| TwoSum.HitIsPair | two-pointers/07-two-sum.py:24-25 | a position that passes the test forms a pair with the position it returns |
| TwoSum.PairHasHit | two-pointers/07-two-sum.py:22-26 | when a pair exists, the scan passes at or before the pair's first position |
| TwoSum.LastIndexAnswers | two-pointers/07-two-sum.py:20-26 | scanning against the last-position index gives the answer described above |
| TwoSum.ExampleOne | two-pointers/07-two-sum.py:7-9 | `[2, 7, 11, 15]` with target 9 answers `[0, 1]` |
| TwoSum.ExampleTwo | two-pointers/07-two-sum.py:12-13 | `[3, 2, 4]` with target 6 answers `[1, 2]` |
| TwoSum.ExampleThree | two-pointers/07-two-sum.py:16-17 | `[3, 3]` with target 6 answers `[0, 1]` |
| PairWithTargetSum.PairWithTargetSum | two-pointers/01-pair-with-target-sum.py:20-33 | the scan's answer against an index that maps each value to the sum of the positions holding it; on distinct values, the same answer as `two_sum` |
| PairWithTargetSum.IndexSums | two-pointers/01-pair-with-target-sum.py:26-28 | the `nums_idx[arr[i]] += i` index over the first `n` positions, which adds up the positions of equal values; stated by `IndexSumsSpec` and `IndexSumsDistinct` |
| PairWithTargetSum.IndexSumsSpec | two-pointers/01-pair-with-target-sum.py:26-28 | every key of the index is a value of the array, and every value's entry is at least each position holding it |
| PairWithTargetSum.IndexSumsDistinct | two-pointers/01-pair-with-target-sum.py:26-28 | on distinct values the summed index is the last-position index |
| PairWithTargetSum.DistinctAnswers | two-pointers/01-pair-with-target-sum.py:29-33 | on distinct values the scan answers a pair with the smallest first position, or `[]` exactly when there is no pair |
| PairWithTargetSum.ExampleOne | two-pointers/01-pair-with-target-sum.py:45 | `[1, 2, 3, 4, 6]` with target 6 answers `[1, 3]` |
| PairWithTargetSum.FirstPairOne | two-pointers/01-pair-with-target-sum.py:7-9 | `[1, 3]` is also the two-sum answer for that input |
| PairWithTargetSum.ExampleTwo | two-pointers/01-pair-with-target-sum.py:46 | `[2, 5, 9, 11]` with target 11 answers `[0, 2]` |
| PairWithTargetSum.FirstPairTwo | two-pointers/01-pair-with-target-sum.py:11-13 | `[0, 2]` is also the two-sum answer for that input |
| PairWithTargetSum.RepeatedValuePointsPastEnd | two-pointers/01-pair-with-target-sum.py:28-32 | `[1, 1, 1]` with target 2 answers `[0, 3]`, whose second position lies past the end |
| PairWithTargetSum.SolPairWithTargetSum | two-pointers/01-pair-with-target-sum.py:34-42 | the first position with an earlier partner of a different value, paired with the last such partner before it; `[]` when there is none |
| PairWithTargetSum.SolHit | two-pointers/01-pair-with-target-sum.py:38-41 | a lookup that passes at the first such position gives that answer |
| PairWithTargetSum.SolMiss | two-pointers/01-pair-with-target-sum.py:38-41 | a lookup that fails means the position has no earlier partner of a different value |
| PairWithTargetSum.SolExampleOne | two-pointers/01-pair-with-target-sum.py:47 | `[1, 2, 3, 4, 6]` with target 6 answers `[3, 1]` in the second version |
| PairWithTargetSum.SolMissesEqualValues | two-pointers/01-pair-with-target-sum.py:40 | `[3, 3]` with target 6 answers `[]` in the second version, although positions 0 and 1 add up to 6 |
| TwoSumSorted.TwoSumSortedInputArray | two-pointers/08-two-sum-input-array-sorted.py:22-32 | on a sorted array: `[]` exactly when no pair exists; otherwise the 1-based positions of a pair whose first position is the smallest and whose second is the largest taking part in any pair |
| TwoSumSorted.HasOrderedPair | two-pointers/08-two-sum-input-array-sorted.py:4 | a pair of different positions exists exactly when a pair with the smaller position first exists |
| TwoSumSorted.DropRight | two-pointers/08-two-sum-input-array-sorted.py:28-29 | when the sum is too large, no pair uses the right end |
| TwoSumSorted.DropLeft | two-pointers/08-two-sum-input-array-sorted.py:30-31 | when the sum is too small, no pair uses the left end |
| TwoSumSorted.ExampleOne | two-pointers/08-two-sum-input-array-sorted.py:7-9 | `[2, 7, 11, 15]` with target 9 answers `[1, 2]` |
| TwoSumSorted.ExampleTwo | two-pointers/08-two-sum-input-array-sorted.py:13-14 | `[2, 3, 4]` with target 6 answers `[1, 3]` |
| TwoSumSorted.ExampleThree | two-pointers/08-two-sum-input-array-sorted.py:17-19 | `[-1, 0]` with target -1 answers `[1, 2]` |
| RemoveDuplicates.RemoveDuplicates | two-pointers/02-remove-duplicates.py:18-23 | the length of the array with each run of equal neighbours collapsed; on sorted input, the number of distinct values |
| RemoveDuplicates.SolRemoveDuplicates | two-pointers/02-remove-duplicates.py:39-44 | on a non-empty array the front `insert_index` elements are the collapsed array and the rest is untouched; on sorted input they are the distinct values in increasing order; an empty array answers 1 |
| RemoveDuplicates.CollapseSorted | two-pointers/02-remove-duplicates.py:5 | collapsing a sorted array gives a strictly increasing sequence with the same values |
| RemoveDuplicates.SortedCollapseLength | two-pointers/02-remove-duplicates.py:5 | on sorted input the collapsed length is the number of distinct values |
| RemoveDuplicates.ExampleOne | two-pointers/02-remove-duplicates.py:47 | `[2, 3, 3, 3, 6, 9, 9]` answers 4 |
| RemoveDuplicates.ExampleTwo | two-pointers/02-remove-duplicates.py:48 | `[2, 2, 2, 11]` answers 2 |
| DutchFlag.SortDutchFlag | two-pointers/03-dutch-national-flag.py:12-26 | the result is a permutation of the input, split into a part of 0s, a part of 1s and a part of the rest; when every element is 0, 1 or 2, it is sorted |
| DutchFlag.FlagsSorted | two-pointers/03-dutch-national-flag.py:16-25 | when the loop ends, the three bands of an array of 0s, 1s and 2s make it sorted |
| DutchFlag.SameElements | two-pointers/03-dutch-national-flag.py:3 | two arrays of 0s, 1s and 2s with the same count of each value hold the same elements, and the sorted one is sorted |
| DutchFlag.ExampleOne | two-pointers/03-dutch-national-flag.py:28 | `[0, 1, 2, 1, 0]` sorts to `[0, 0, 1, 1, 2]` |
| DutchFlag.ExampleTwo | two-pointers/03-dutch-national-flag.py:29 | `[2, 2, 0, 1, 2, 0]` sorts to `[0, 0, 1, 2, 2, 2]` |
| SortedSquares.Squares | two-pointers/04-squares-of-a-sorted-array.py:22 | each element squared, in the same order |
| SortedSquares.SortedSquares | two-pointers/04-squares-of-a-sorted-array.py:17-22 | the squares of the input, rearranged into non-decreasing order |
| SortedSquares.SolSortedSquares | two-pointers/04-squares-of-a-sorted-array.py:25-38 | the result holds the squares of the input; on sorted input it is the sorted squares |
| SortedSquares.SquareMonotone | two-pointers/04-squares-of-a-sorted-array.py:31 | the number of larger absolute value has the larger square |
| SortedSquares.EndsBound | two-pointers/04-squares-of-a-sorted-array.py:30-37 | on sorted input every square between the two pointers is at most the larger of the squares at the ends |
| SortedSquares.FillStep | two-pointers/04-squares-of-a-sorted-array.py:31-37 | one step of the loop keeps every square accounted for, and keeps the filled tail sorted and above the squares still to place |
| SortedSquares.Done | two-pointers/04-squares-of-a-sorted-array.py:38 | a sorted rearrangement of the squares is the sorted squares |
| SortedSquares.ExampleOne | two-pointers/04-squares-of-a-sorted-array.py:42 | `[-2, -1, 0, 2, 3]` answers `[0, 1, 4, 4, 9]` |
| ProductLessThan.SubarrayProductLessThanK | two-pointers/05-subarrays-with-product-less-than-a-target.py:17-41 | on positive numbers, the number of contiguous subarrays whose product is below the target; 0 when the target is below 2 |
| ProductLessThan.ProductTurn | two-pointers/05-subarrays-with-product-less-than-a-target.py:36-40 | one turn moves the left end to the first start whose product is below the target and keeps the product of that window |
| ProductLessThan.ShrinkProduct | two-pointers/05-subarrays-with-product-less-than-a-target.py:37-39 | dividing out the leftmost element while the product reaches the target stops at or before the first passing start, below the target |
| ProductLessThan.CountAtEnd | two-pointers/05-subarrays-with-product-less-than-a-target.py:40 | `right_ptr - left_ptr + 1` is the number of subarrays ending at the right end whose product is below the target |
| ProductLessThan.ProdInside | two-pointers/05-subarrays-with-product-less-than-a-target.py:37 | on positive numbers, a subarray inside another has no larger product |
| ProductLessThan.NoneBelow | two-pointers/05-subarrays-with-product-less-than-a-target.py:30-31 | with a target below 2 no subarray of positive numbers has a smaller product |
| ProductLessThan.ExampleOne | two-pointers/05-subarrays-with-product-less-than-a-target.py:8-10 | `[2, 5, 3, 10]` with target 30 has 6 such subarrays |
| ProductLessThan.ExampleTwo | two-pointers/05-subarrays-with-product-less-than-a-target.py:13-15 | `[8, 2, 6, 5]` with target 50 has 7 such subarrays |
| Triples.TripleTransfer | two-pointers/06-three-sum-close-to-target.py:23 | a rearrangement of a list has a triplet of positions with the same sum as any triplet of the original |
| Triples.PickTriple | two-pointers/09-three-sum-to-zero.py:43 | three values drawn from a list sit at three increasing positions of it |
| Triples.SameTripleSum | two-pointers/06-three-sum-close-to-target.py:23 | two triplets with the same values have the same sum |
| ThreeSumClose.ThreeSumCloseToTarget | two-pointers/06-three-sum-close-to-target.py:22-40 | returns the list as `arr.sort()` leaves it, a sorted permutation of the input, next to the closest sum; `ClosestIsOptimal` states what that sum is |
| ThreeSumClose.Inner | two-pointers/06-three-sum-close-to-target.py:28-39 | the `while low < high` loop for one first position, as a recursion on `high - low`: the best sum kept, and whether the function returned on an exact hit; stated by `InnerAttained`, `InnerNoFarther` and `InnerCovers` |
| ThreeSumClose.Outer | two-pointers/06-three-sum-close-to-target.py:25-40 | the `for i` loop with its duplicate skip, ending early on a hit; stated by `OuterCovers` and `OuterNone` |
| ThreeSumClose.ClosestIsOptimal | two-pointers/06-three-sum-close-to-target.py:22-40 | the answer is `math.inf` exactly when there are fewer than three numbers; otherwise it is the sum of a triplet of positions, no triplet sum is closer to the target, and it is the target whenever some triplet adds up to it |
| ThreeSumClose.InnerAttained | two-pointers/06-three-sum-close-to-target.py:29-39 | the best sum the inner loop keeps is always the sum of a triplet |
| ThreeSumClose.InnerNoFarther | two-pointers/06-three-sum-close-to-target.py:29-39 | the inner loop returns only on an exact hit, with the target as its answer; it never moves the best sum farther from the target; once it has run a step it holds a sum |
| ThreeSumClose.InnerCovers | two-pointers/06-three-sum-close-to-target.py:29-39 | on sorted values, the inner loop for first position `i` ends with a best sum as close as every triplet `(i, j, k)` with `low <= j < k <= high` |
| ThreeSumClose.CoversLow | two-pointers/06-three-sum-close-to-target.py:36-37 | on sorted values, a sum below the target with `low` makes every other pair `(low, k)` at most as close |
| ThreeSumClose.CoversHigh | two-pointers/06-three-sum-close-to-target.py:38-39 | on sorted values, a sum above the target with `high` makes every other pair `(j, high)` at most as close |
| ThreeSumClose.SkipCovered | two-pointers/06-three-sum-close-to-target.py:26-27 | skipping a first value equal to the previous one loses no triplet sum |
| ThreeSumClose.OuterCovers | two-pointers/06-three-sum-close-to-target.py:25-40 | the outer loop ends with a best sum as close as every triplet of the sorted list |
| ThreeSumClose.OuterNone | two-pointers/06-three-sum-close-to-target.py:24 | with fewer than three numbers the best sum stays `math.inf` |
| ThreeSumClose.SortedArrangement | two-pointers/06-three-sum-close-to-target.py:23 | any sorted arrangement of the input is the list the function returns, and its answer is the scan over that arrangement |
| ThreeSumClose.ExampleOne | two-pointers/06-three-sum-close-to-target.py:7-9 | `[-2, 0, 1, 2]` with target 2 answers 1 |
| ThreeSumClose.ExampleTwo | two-pointers/06-three-sum-close-to-target.py:12-14 | `[-3, -1, 1, 2]` with target 1 answers 0 |
| ThreeSumClose.ExampleThree | two-pointers/06-three-sum-close-to-target.py:17-19 | `[1, 0, 1, 1]` with target 100 answers 3 |
| ThreeSumSmaller.SolThreeSumSmaller | two-pointers/10-three-sum-smaller.py:51-78 | fewer than three numbers answer 0 and are left as they are; otherwise the list is sorted and the answer is the number of triplets `i < j < k` of positions whose sum is below the target |
| ThreeSumSmaller.CountForFirst | two-pointers/10-three-sum-smaller.py:69-77 | the inner loop adds the number of pairs after first position `i` that complete it below the target |
| ThreeSumSmaller.ThreeSumSmaller | two-pointers/10-three-sum-smaller.py:21-49 | every listed triplet holds the values at three increasing positions whose sum is below the target, and the answer, the number listed, is the number of such triplets |
| ThreeSumSmaller.ListForFirst | two-pointers/10-three-sum-smaller.py:39-47 | the inner loop lists exactly as many triplets as there are pairs completing `i` below the target, and each is such a triplet |
| ThreeSumSmaller.ListThirds | two-pointers/10-three-sum-smaller.py:43-44 | `high - low` triplets are listed, each with a sum below the target |
| ThreeSumSmaller.TakenLow | two-pointers/10-three-sum-smaller.py:42-45 | on sorted values, a sum below the target with `low` and `high` makes all `high - low` pairs `(low, k)` count |
| ThreeSumSmaller.RuledOutHigh | two-pointers/10-three-sum-smaller.py:46-47 | on sorted values, a sum at or above the target rules out `high` with every `j` from `low` on |
| ThreeSumSmaller.NoTriples | two-pointers/10-three-sum-smaller.py:64-65 | fewer than three numbers hold no triplet |
| ThreeSumSmaller.ExampleOne | two-pointers/10-three-sum-smaller.py:7-11 | `[-2, 0, 1, 3]` with target 2 has 2 such triplets |
| ThreeSumSmaller.ExampleTwo | two-pointers/10-three-sum-smaller.py:13-19 | `[]` and `[0]` with target 0 have none |
| ThreeSumZero.ThreeSumToZero | two-pointers/09-three-sum-to-zero.py:43-62 | a list of three values is recorded exactly when it is in non-decreasing order, adds up to zero and is drawn from the input's values; no triplet is recorded twice, and each starts at or below zero |
| ThreeSumZero.PairsForFirst | two-pointers/09-three-sum-to-zero.py:49-61 | after the inner loop for a first position, every zero triplet starting there is recorded, in increasing order, and nothing else is |
| ThreeSumZero.SkipFirst | two-pointers/09-three-sum-to-zero.py:48 | skipping a first value equal to the previous one loses no zero triplet |
| ThreeSumZero.NoZeroFrom | two-pointers/09-three-sum-to-zero.py:46-47 | on sorted values, no zero triplet starts at a positive value |
| ThreeSumZero.Record | two-pointers/09-three-sum-to-zero.py:52-57 | recording a zero sum and moving past copies of `low`'s value keeps the inner loop's invariant |
| ThreeSumZero.RaiseLow | two-pointers/09-three-sum-to-zero.py:58-59 | a sum below zero rules out `low` for every remaining `high` |
| ThreeSumZero.LowerHigh | two-pointers/09-three-sum-to-zero.py:60-61 | a sum above zero rules out `high` for every remaining `low` |
| ThreeSumZero.FoundSound | two-pointers/09-three-sum-to-zero.py:53 | every recorded triplet is drawn from the input and starts at or below zero |
| ThreeSumZero.FoundComplete | two-pointers/09-three-sum-to-zero.py:45-62 | every zero triplet drawn from the input is recorded |
| ThreeSumZero.FoundOnce | two-pointers/09-three-sum-to-zero.py:5 | triplets recorded in strictly increasing order are all different |
| ThreeSumZero.SortedTripletUnique | two-pointers/09-three-sum-to-zero.py:5 | two ordered triplets with the same values are the same triplet |
| ThreeSumZero.ExampleOne | two-pointers/09-three-sum-to-zero.py:8-9 | `[-1, 0, 1, 2, -1, -4]` gives `[-1, -1, 2]` and `[-1, 0, 1]` and nothing else |
| ThreeSumZero.ExampleTwo | two-pointers/09-three-sum-to-zero.py:18-19 | `[0, 1, 1]` gives nothing |
| ThreeSumZero.ExampleThree | two-pointers/09-three-sum-to-zero.py:23-24 | `[0, 0, 0]` gives `[0, 0, 0]` only |
| HappyNumber.SumOfSquares | fast-slow-pointers/01-happy-number.py:50-57 | the sum of the squares of the decimal digits of `n`; 0 when `n` is not positive |
| HappyNumber.DigitsRoundTrip | fast-slow-pointers/01-happy-number.py:53-56 | the digits peeled off by `% 10` and `//= 10` are decimal digits with a nonzero leading one, and they spell `n` again |
| HappyNumber.SmallStep | fast-slow-pointers/01-happy-number.py:50-57 | a step from a number of at most three digits lands in `0..243` |
| HappyNumber.LargeStep | fast-slow-pointers/01-happy-number.py:50-57 | a step from a number of four or more digits lands on a smaller number, so every walk stays bounded |
| HappyNumber.SolIsHappyNumber | fast-slow-pointers/01-happy-number.py:59-72 | for `n != 1`, true exactly when the walk from `n` reaches 1; for `n == 1` the answer is false |
| HappyNumber.Repeats | fast-slow-pointers/01-happy-number.py:67 | a walk that comes back to a value it has seen without having met 1 never reaches 1 |
| HappyNumber.NeverOne | fast-slow-pointers/01-happy-number.py:8 | a walk that repeats a value before meeting 1 cycles without 1 forever |
| HappyNumber.OneStays | fast-slow-pointers/01-happy-number.py:8 | once the walk is at 1 it stays at 1 |
| HappyNumber.IsHappy | fast-slow-pointers/01-happy-number.py:9-11 | the corrected version: true exactly when the walk from `n` reaches 1, for every `n` |
| HappyNumber.OneIsHappy | fast-slow-pointers/01-happy-number.py:9 | 1 is happy |
| HappyNumber.Floyd | fast-slow-pointers/01-happy-number.py:41-48 | one round of the tortoise and hare at a time, at most `fuel` rounds: true when the fast walker lands on 1, false when the walkers meet elsewhere, `None` when the rounds run out; stated by `FloydSound` |
| HappyNumber.IsHappyNumber | fast-slow-pointers/01-happy-number.py:28-48 | `is_happy_number(n)` with both walkers starting at `n`, within `fuel` rounds; stated by `IsHappyNumberSound` and `IsHappyNumberOne` |
| HappyNumber.IsHappyNumberSound | fast-slow-pointers/01-happy-number.py:39-48 | whenever the slow/fast walk answers within its rounds, the answer is whether `n` is happy |
| HappyNumber.FloydSound | fast-slow-pointers/01-happy-number.py:41-48 | each round keeps that soundness: the fast walker meeting 1 means happy, and the walkers meeting elsewhere means a cycle without 1 |
| HappyNumber.IsHappyNumberOne | fast-slow-pointers/01-happy-number.py:45-46 | the slow/fast walk answers true for 1 in its first round |
| HappyNumber.ExampleOne | fast-slow-pointers/01-happy-number.py:14-21 | 19 reaches 1 in four steps, so it is happy |
| HappyNumber.ExampleTwo | fast-slow-pointers/01-happy-number.py:23-25 | 2 is not happy: its walk enters the cycle 4, 16, 37, 58, 89, 145, 42, 20 |
| MiddleOfList.MiddleOfTheLinkedList | fast-slow-pointers/03-middle-of-the-linked-list.py:22-41 | for a non-empty list, the second middle node: the nodes from it on are as many as those before it, or one more; for an empty list, `None` |
| MiddleOfList.SolMiddleOfTheLinkedList | fast-slow-pointers/03-middle-of-the-linked-list.py:43-48 | the slow pointer ends at the same second middle node, and at `None` for an empty list |
| MiddleOfList.Sol2MiddleOfTheLinkedList | fast-slow-pointers/03-middle-of-the-linked-list.py:50-56 | for a non-empty list, the collected array holds the nodes in order and the answer is the second middle node |
| MiddleOfList.MiddleUnique | fast-slow-pointers/03-middle-of-the-linked-list.py:4 | exactly one node is the second middle: the one at position `n / 2` |
| MiddleOfList.ExampleOne | fast-slow-pointers/03-middle-of-the-linked-list.py:7-9 | from the middle of `[1, 2, 3, 4, 5]` the list reads `[3, 4, 5]` |
| MiddleOfList.ExampleTwo | fast-slow-pointers/03-middle-of-the-linked-list.py:12-14 | from the middle of `[1, 2, 3, 4, 5, 6]` the list reads `[4, 5, 6]` |
| LinkedListCycle.DetectCycle | fast-slow-pointers/04-linked-list-cycle-2.py:12-31 | `None` exactly when the walk from the head runs off the end; otherwise the node at the first step that comes back to a node already met |
| LinkedListCycle.Cycles | fast-slow-pointers/04-linked-list-cycle-2.py:27-28 | coming back to a node already met means the walk never reaches `None` |
| LinkedListCycle.NeverEnds | fast-slow-pointers/04-linked-list-cycle-2.py:26-30 | a walk that revisits a node repeats forever |
| LinkedListCycle.FirstRepeatUnique | fast-slow-pointers/04-linked-list-cycle-2.py:27-28 | only one step is the first to come back, so the answer is determined |
| LinkedListCycle.OnCycle | fast-slow-pointers/04-linked-list-cycle-2.py:3 | the node returned lies on a cycle: a positive number of steps from it leads back to it |
| LinkedListCycle.ExampleOne | fast-slow-pointers/04-linked-list-cycle-2.py:34-40 | the six-node list without a cycle answers `None` |
| LinkedListCycle.ExampleTwo | fast-slow-pointers/04-linked-list-cycle-2.py:42-43 | with the last node linked back to the third, the answer is the third node, holding 3 |
| InMemoryDatabase.Init | other-topics/in-memory-database.py:6-8 | a new store has no keys and its counter at 0, and satisfies the store invariant |
| InMemoryDatabase.InitReadsNone | other-topics/in-memory-database.py:16-18 | every read of a new store finds nothing |
| InMemoryDatabase.Set | other-topics/in-memory-database.py:10-14 | the counter goes up by one; the key's history, empty if the key is new, gains one entry at its end with the new stamp and the value; every other key's history is unchanged |
| InMemoryDatabase.Stamps | other-topics/in-memory-database.py:20 | the timestamps of a history, one per entry, in order |
| InMemoryDatabase.BisectRight | other-topics/in-memory-database.py:21 | on a sorted list, everything before the index is at most the key and everything from the index on is above it |
| InMemoryDatabase.BisectRightFrom | other-topics/in-memory-database.py:21 | the halving loop of `bisect_right` between `lo` and `hi`: the index stays within those bounds, and on a sorted list already split at `lo` and `hi` it splits the whole list into the elements at most the key and those above |
| InMemoryDatabase.LastAtOrBefore | other-topics/in-memory-database.py:16-24 | the reference meaning of a read: nothing exactly when every entry is later than the time asked; otherwise the value of an entry at or before that time after which every entry is later |
| InMemoryDatabase.Get | other-topics/in-memory-database.py:16-24 | a key never written reads as nothing; otherwise, on a history in time order, the read is the value the key held at or before the given time |
| InMemoryDatabase.BisectIndexSelectsLast | other-topics/in-memory-database.py:21-24 | on a history in time order, the entry before the bisection index is the last one at or before the time asked, and index 0 means there is none |
| InMemoryDatabase.SetPreservesValid | other-topics/in-memory-database.py:10-14 | a write keeps the invariant: histories non-empty, strictly increasing in time, stamped by the counter, no stamp shared by two keys |
| InMemoryDatabase.ValidHistoriesSorted | other-topics/in-memory-database.py:20-21 | in a store that keeps the invariant every history is in time order, which is what `bisect_right` needs |
| InMemoryDatabase.GetAfterSetSeesNewValue | other-topics/in-memory-database.py:10-24 | a read of the written key at or after the new stamp sees the value written |
| InMemoryDatabase.GetAfterSetEarlierUnchanged | other-topics/in-memory-database.py:10-24 | a read of the written key before the new stamp answers as it did before the write |
| InMemoryDatabase.GetAfterSetOtherUnchanged | other-topics/in-memory-database.py:10-24 | a write leaves every read of every other key unchanged |
| InMemoryDatabase.BisectMonotone | other-topics/in-memory-database.py:21 | a later time gives a bisection index no smaller |
| InMemoryDatabase.ReplayStamps | other-topics/in-memory-database.py:10-14 | after `n` writes from a new store the counter is `n`, the invariant holds, and the `i`-th write sits in its key's history with stamp `i` |
| InMemoryDatabase.DemoStore | other-topics/in-memory-database.py:27-30 | the demonstration's three writes leave key 1 with one entry and key `'str2'` with two, stamped 2 and 3 |
| InMemoryDatabase.DemoReads | other-topics/in-memory-database.py:31 | `get('str2', 3)` is 3, `get('str2', 2)` is `'str2'`, and reads before a key's first write find nothing |
| Paths.Split | other-topics/lc-file-system.py:42 | `path.split('/')`: at least one part, no part holds `/`, and joining the parts with `/` gives the path back |
| Paths.SplitJoin | other-topics/lc-file-system.py:42 | splitting a join of parts without `/` gives the parts back |
| Paths.SplitSnoc | other-topics/lc-file-system.py:63 | splitting `dir + "/" + name` splits `dir` and adds `name` |
| AssocLists.Put | other-topics/lc-file-system.py:23 | storing under a name: the name now maps to the new entry, every other name keeps its entry, and a new name goes after the existing ones |
| AssocLists.Find | other-topics/lc-file-system.py:36 | looking up a present name gives an entry stored under it, the only one when names are unique |
| Strings.Sort | other-topics/lc-file-system.py:13 | `sorted(...)` on names: the result is in order and is a permutation of the input |
| Strings.SortedUnique | other-topics/lc-file-system.py:13 | two sorted permutations of the same names are equal, so the listing is determined |
| LcFileSystem.Init | other-topics/lc-file-system.py:6-7 | a new file system is an empty root dict; `FreshMkdirThenAdd` and `Demo` start from it |
| LcFileSystem.Walk | other-topics/lc-file-system.py:44-51 | the non-creating loop of `_traverse`: `None` at the first missing name, and `TypeError` when a name is a substring of a file met on the way; stated by `WalkAppend` and used by `Ls` |
| LcFileSystem.Descend | other-topics/lc-file-system.py:21-27 | the creating walk shared by `mkdir` and `addContentToFile`: missing names get new dicts, a file met with names to go raises `TypeError`, and an append creates the file `''` first; stated by `DescendFrame` |
| LcFileSystem.Mkdir | other-topics/lc-file-system.py:15-16 | `mkdir(path)`: the root path changes nothing, any other path runs the creating walk over `path.split('/')[1:]`; stated by `MkdirCreatesPath`, `MkdirIdempotent` and `MkdirFrame` |
| LcFileSystem.AddContent | other-topics/lc-file-system.py:18-27 | `addContentToFile(filePath, content)`: the creating walk over `parts[1:-1]`, then an append to the last part; stated by `ReadAfterAdd`, `AddTwiceConcatenates` and `AddContentFrame` |
| LcFileSystem.Read | other-topics/lc-file-system.py:33-37 | the loop of `readContentFromFile`: `KeyError` at a missing name, `TypeError` on a file met on the way, else the entry under the last part |
| LcFileSystem.ReadContent | other-topics/lc-file-system.py:29-37 | `readContentFromFile(filePath)`: the entry stored under the path; stated by `ReadAfterAdd` |
| LcFileSystem.Ls | other-topics/lc-file-system.py:9-13 | a failed walk raises its error, a missing path raises `AttributeError`, a file lists as its own name, and a directory lists its names in sorted order |
| LcFileSystem.WalkAppend | other-topics/lc-file-system.py:44-51 | a walk over two lists of names is a walk over the first then over the second, and stops early if the first does |
| LcFileSystem.MkdirCreatesPath | other-topics/lc-file-system.py:15-16 | after `mkdir` the path leads to the entry already there, or to a new empty directory where there was nothing |
| LcFileSystem.MkdirIdempotent | other-topics/lc-file-system.py:15-16 | `mkdir` twice on the same path is `mkdir` once |
| LcFileSystem.MkdirFrame | other-topics/lc-file-system.py:15-16 | `mkdir` changes nothing along a path that parts ways with its own |
| LcFileSystem.AddContentFrame | other-topics/lc-file-system.py:18-27 | `addContentToFile` changes nothing along a path that parts ways with the file's |
| LcFileSystem.ReadAfterAdd | other-topics/lc-file-system.py:18-37 | reading after `addContentToFile` gives the earlier content, `''` for a new file, followed by the appended text |
| LcFileSystem.AddTwiceConcatenates | other-topics/lc-file-system.py:18-37 | two appends to the same file concatenate, in order |
| LcFileSystem.DescendFrame | other-topics/lc-file-system.py:21-27 | a creating walk changes only the entries on its own path |
| LcFileSystem.FreshMkdirThenAdd | other-topics/lc-file-system.py:59-68 | on a new file system, `mkdir` of an absolute directory then an append to a file in it makes the read give the content and the listing give the file's name |
| LcFileSystem.Demo | other-topics/lc-file-system.py:59-68 | the module's demonstration reads "Hyunni" back and lists `["myfile.txt"]` |
| NodeFileSystem.Init | other-topics/node-file-system.py:11-12 | a new file system is a root directory node with no content and no children; `FreshMkdirThenAdd` and `Demo` start from it |
| NodeFileSystem.Get | other-topics/node-file-system.py:17-23 | the loop of `_find_node` over names: `None` at the first name that is not a child; stated by `GetAppend` and `GetHang` |
| NodeFileSystem.FindNode | other-topics/node-file-system.py:14-23 | `_find_node(path)`: the walk over the non-empty pieces of the path; stated by `FindRoot` |
| NodeFileSystem.Touch | other-topics/node-file-system.py:37-41 | a walk through `children[part]`, which inserts a `Node()` for a missing name, then the change at its end; stated by `TouchReaches`, `TouchKeepsAncestors` and `TouchFrame` |
| NodeFileSystem.Mkdir | other-topics/node-file-system.py:34-41 | `mkdir(path)`: that walk over the non-empty pieces, setting the directory flag only on the last node; stated by `MkdirMakesDirectory`, `MkdirKeepsAncestors` and `MkdirFrame` |
| NodeFileSystem.AddContent | other-topics/node-file-system.py:66-76 | `add_content_to_file(path, content)`: that walk to the file's node, which becomes a non-directory with the text appended; stated by `ReadAfterAdd`, `AddTwiceConcatenates` and `AddGrowsRootSize` |
| NodeFileSystem.ReadContent | other-topics/node-file-system.py:78-82 | `read_content_from_file(path)`: the error text for a missing path or a directory, else the node's content; stated by `ReadAfterAdd` |
| NodeFileSystem.ChildSizes | other-topics/node-file-system.py:53 | one size per child, in the children's order |
| NodeFileSystem.GetSize | other-topics/node-file-system.py:43-55 | -1 exactly when the path names no node; a file's size is its content's length; a directory's size is the sum of its children's sizes |
| NodeFileSystem.KidsSizeIsSum | other-topics/node-file-system.py:52-55 | the `total_size` loop over the children adds up exactly the children's sizes |
| NodeFileSystem.DirSize | other-topics/node-file-system.py:49-55 | the recursive size of a directory is the sum of its children's sizes |
| NodeFileSystem.Ls | other-topics/node-file-system.py:57-64 | a missing path gives `"Error: Path not found"`, a file gives the last piece of its path, a directory gives exactly its children's names, one per child, in the order the children were inserted |
| NodeFileSystem.GetAppend | other-topics/node-file-system.py:17-23 | a walk over two lists of names is a walk over the first and then over the second, and stops if the first does |
| NodeFileSystem.FindRoot | other-topics/node-file-system.py:14-23 | `''` and `'/'` both name the root |
| NodeFileSystem.TouchReaches | other-topics/node-file-system.py:37-41 | after a creating walk its names lead to the node that was there, or a new `Node()`, with the final change applied |
| NodeFileSystem.TouchKeepsAncestors | other-topics/node-file-system.py:37-40 | every node a creating walk passes through exists afterwards and keeps its directory flag and content; an inserted one is a non-directory `Node()` |
| NodeFileSystem.TouchFrame | other-topics/node-file-system.py:37-40 | a walk that parts ways with a creating walk's names sees the same node as before |
| NodeFileSystem.MkdirMakesDirectory | other-topics/node-file-system.py:34-41 | after `mkdir` the path names a directory: the node already there with its flag set, or a new empty one |
| NodeFileSystem.MkdirKeepsAncestors | other-topics/node-file-system.py:37-40 | `mkdir` leaves every node above the path in place with the directory flag it had; nodes it had to create are not directories |
| NodeFileSystem.MkdirFrame | other-topics/node-file-system.py:34-41 | `mkdir` changes nothing along a walk that parts ways with the path |
| NodeFileSystem.AddContentFrame | other-topics/node-file-system.py:66-76 | `add_content_to_file` changes nothing along a walk that parts ways with the file's |
| NodeFileSystem.FileWalkIsFindWalk | other-topics/node-file-system.py:67-73 | when the path does not end in `/`, the names `add_content_to_file` walks are the names `_find_node` walks |
| NodeFileSystem.ReadAfterAdd | other-topics/node-file-system.py:66-82 | reading a path after appending to it gives the earlier content, `''` for a new node, followed by the appended text |
| NodeFileSystem.AddTwiceConcatenates | other-topics/node-file-system.py:66-82 | two appends to the same file read back as the earlier content followed by both texts in order |
| NodeFileSystem.ChildSizesPut | other-topics/node-file-system.py:53-54 | storing a child under a name changes the children's total by the new child's size less the size of the one it replaces, if any |
| NodeFileSystem.ChildSizesReplace | other-topics/node-file-system.py:53-54 | replacing a child changes the children's total by the difference of the two sizes |
| NodeFileSystem.ChildSizesAdd | other-topics/node-file-system.py:53-54 | adding a new child adds its size to the children's total |
| NodeFileSystem.TouchAppendGrows | other-topics/node-file-system.py:66-76 | appending to a file whose every enclosing node is a directory grows the size of the top node by the length of the text |
| NodeFileSystem.AddGrowsRootSize | other-topics/node-file-system.py:43-76 | `get_size('/')` grows by the length of the appended text when every node above the file is a directory |
| NodeFileSystem.TouchFresh | other-topics/node-file-system.py:37-40 | a creating walk below a childless node builds a chain of single children ending in the changed new node |
| NodeFileSystem.TouchHang | other-topics/node-file-system.py:37-40 | a creating walk that continues past such a chain acts only at its bottom |
| NodeFileSystem.GetHang | other-topics/node-file-system.py:17-23 | a lookup that continues past such a chain continues from its bottom |
| NodeFileSystem.PathsOfParts | other-topics/node-file-system.py:15 | a path joined from pieces without `/` splits into those pieces, less the empty ones |
| NodeFileSystem.FilePartsSplit | other-topics/node-file-system.py:67 | a file path joined from pieces without `/` splits into exactly those pieces |
| NodeFileSystem.FreshTree | other-topics/node-file-system.py:34-76 | on a new file system, `mkdir` of a directory then an append to a file in it builds a chain of non-directory nodes down to a directory holding only that file |
| NodeFileSystem.NewDirWithFile | other-topics/node-file-system.py:66-76 | appending to a file in a new empty directory gives a directory whose one child is a file holding the text |
| NodeFileSystem.FreshMkdirThenAdd | other-topics/node-file-system.py:84-101 | on a new file system, `mkdir` of a directory two or more names deep then an append to a file in it: the file reads back the text, the directory lists only the file's name, the directory's size is the text's length, and `get_size('/')` is 0 because the nodes `mkdir` created above the directory are not directories |
| NodeFileSystem.FreshQueries | other-topics/node-file-system.py:43-82 | on that tree, reading the file gives the text, listing the directory gives the file's name, and the sizes are the text's length and 0 |
| NodeFileSystem.DemoFits | other-topics/node-file-system.py:86-87 | the demonstration's directory pieces and file name meet the conditions of `FreshMkdirThenAdd` |
| NodeFileSystem.Demo | other-topics/node-file-system.py:84-101 | the demonstration reads `'hello, Jae'` back from `file.txt` and lists `file.txt` as the directory's one name |
| NodeFileSystem.MarkDirsReaches | other-topics/node-file-system.py:34-41 | the intended `mkdir`, which marks every node it reaches: afterwards every non-empty prefix of the path names a directory, and the top node keeps its flag |
| NodeFileSystem.MarkDirsFresh | other-topics/node-file-system.py:34-41 | on a new file system the intended `mkdir` ends at a new empty directory, and the tree it builds has size 0 |
| NodeFileSystem.MarkedOnDirectories | other-topics/node-file-system.py:34-76 | after the intended `mkdir` on a new file system, every node above a file in the directory is a directory, and the file does not exist yet |
| NodeFileSystem.FreshMkdirAllThenAdd | other-topics/node-file-system.py:43-76 | with the intended `mkdir`, `mkdir` of a directory and an append to a file in it on a new file system make `get_size('/')` the text's length |
| NodeFileSystem.DemoSizes | other-topics/node-file-system.py:84-101 | after the demonstration `get_size('/')` is 0 as written, and 10, the length of `'hello, Jae'`, with the intended `mkdir` |

## Left out

- Console output: every `__main__` block's `print` calls and `print_linked_list`. The demonstrations become lemmas about the values they print.
- `sol_subarray_product_less_than_k` (two-pointers/05-subarrays-with-product-less-than-a-target.py:43-63): it compares floating-point logarithms against an epsilon, and floating point is not modelled.
- ProductLessThan.SubarrayProductLessThanK: `product /= arr[left_ptr]` is float division in Python; the model divides the window product exactly, which is what the float value stands for while it stays exact. It requires positive numbers, as the problem statement does; a zero would make the division meaningless.
- two-pointers/challenge-03-shortest-unsorted-continuous-subarray.py holds only a problem statement and no code, so there is nothing to model.
- HappyNumber.IsHappyNumber: Floyd's tortoise-and-hare loop is modelled with a fuel bound. It is proved sound whenever it answers, and answers `None` when the rounds run out; that it always answers within some number of rounds is not proved.
- ThreeSumSmaller.ThreeSumSmaller: the count is stated over the sorted arrangement of the input; that the number of qualifying triples does not change under sorting is not proved.
- ThreeSumSmaller.SolThreeSumSmaller: the count is stated over the sorted arrangement of the input; that the number of qualifying triples does not change under sorting is not proved.
- Sorting in place (`arr.sort()`, `nums.sort()`) is modelled by returning the sorted list next to the answer, using `Seqs.SortInts`.
- Linked lists are modelled by node positions, not objects: `ListNode` identity, aliasing and the heap are left out. In the middle-of-list problem the values are the positions plus one; in cycle detection `lookup[cur] = cur.val` keeps only the set of nodes met.
- The unused `import time`, the commented-out code, and the `bisect` and `collections` libraries themselves: `bisect_right` and `defaultdict` are specified by what they return.
- Reads through a `defaultdict` create the missing entry as a side effect. Where the code reads an entry it has just written, the model does not show the extra entry.
- MaxSumSubarray.MaxSubarrayOfSizeK: requires `k >= 1`, as the problem states. With `k == 0` the Python answers differ between the two versions.
- MaxSumSubarray.SlidingMaxSum: requires `k >= 1` for the same reason.
- TwoSumSorted.TwoSumSortedInputArray: requires sorted input, which is the problem's premise.
- SmallestSubarray.SmallestSubarrayWithGivenSum: requires positive numbers and `s > 0`, as the problem states; the shrinking loop depends on both.
- SmallestSubarray.SolSmallestSubarrayWithGivenSum: the same requirement.
- MiddleOfList.Sol2MiddleOfTheLinkedList: requires a non-empty list, because `arr[-1].next` fails when the head is `None`.
- OnesReplacement.SolLongestSubstring: requires a non-empty array, because `max_length` is unbound when the loop never runs.
- PermutationInString.FindPermutation: requires a non-empty string, because `min` of an empty dictionary raises.
- NodeFileSystem.ReadAfterAdd: requires a path that does not end in `/`. For such a path `add_content_to_file` stores the text under the name `''`, which `_find_node` never visits.
- NodeFileSystem.AddTwiceConcatenates: the same requirement.
- NodeFileSystem.Ls: a directory's `keys()` view is modelled as the list of its names in insertion order, not as a live view of the dict.
- LcFileSystem.Ls: Python's `sorted` is modelled by `Strings.Sort`, which orders strings by code points as Python does.

## Findings

| source | as written | input that shows it | evidently intended | confidence | as-written member | corrected member |
|---|---|---|---|---|---|---|
| sliding-window/02-smallest-subarray-with-a-given-sum.py:36 | `length_subarray` starts at `len(arr)` and is returned unchanged when no window reaches `s` | `[1, 1]`, `s = 5` answers 2 | 0 when no window reaches `s`, as the second version answers | high, not executed | SmallestSubarray.NoWindowGivesLength | SmallestSubarray.NoWindowAnswers |
| sliding-window/03-longest-substring-with-k-distinct-characters.py:45 | a window is recorded only when it has exactly `k` kinds | `"aa"`, `k = 2` answers 0 | 2: every window with at most `k` kinds counts, as the second version answers | high, not executed | KDistinct.FewerKindsAnswersZero | KDistinct.FewerKindsSolAnswersTwo |
| sliding-window/04-fruits-into-baskets.py:30 | a window is recorded only when it holds exactly two kinds | `"AAA"` answers 0 | 3: one kind of fruit fits in the baskets too | high, not executed | FruitsIntoBaskets.OneTypeAnswersZero | FruitsIntoBaskets.OneTypeSolAnswersThree |
| sliding-window/07-longest-subarray-with-ones-after-replacement.py:42 | `max_length = max(right_ptr-left_ptr+1, one_counter)` drops the running maximum; line 55 does the same | `[1, 1, 0]`, `k = 0` answers 0 | 2: the longest window seen at any step | high, not executed | OnesReplacement.FinalWindowOnly | OnesReplacement.FinalWindowOnlyCorrected |
| sliding-window/challenge-01-permutation-in-a-string.py:30-64 | both versions test whether the string holds enough of each letter, not whether one window is a permutation | `"eidboaoo"`, `"ab"` answers true | false: no two adjacent letters are `a` and `b` | high, not executed | PermutationInString.EidboaooCovered | PermutationInString.EidboaooNoWindow |
| two-pointers/01-pair-with-target-sum.py:28 | `nums_idx[arr[i]] += i` adds up the positions of equal values | `[1, 1, 1]`, target 2 answers `[0, 3]`, past the end | a position of the value, e.g. `[0, 2]` | high, not executed | PairWithTargetSum.RepeatedValuePointsPastEnd | TwoSum.TwoSum |
| two-pointers/01-pair-with-target-sum.py:38-40 | each value's position is stored before its complement is looked up, so an equal earlier value is overwritten before it can be found | `[3, 3]`, target 6 answers `[]` | `[0, 1]` | high, not executed | PairWithTargetSum.SolMissesEqualValues | TwoSum.ExampleThree |
| fast-slow-pointers/01-happy-number.py:67-72 | the loop stops at once when `n` is 1 and falls through to `False` | `1` answers False | True: 1 is happy | high, not executed | HappyNumber.OneIsHappy | HappyNumber.IsHappy |
| other-topics/node-file-system.py:37-41 | `mkdir` sets the directory flag only on the last node; the `Node()`s that `children[part]` inserts above it stay non-directories | on a new file system, `mkdir('/a/b')` then `add_content_to_file('/a/b/f', 'x')` makes `get_size('/')` 0 | 1: every name on the path becomes a directory, so the root counts the file | medium, not executed | NodeFileSystem.FreshMkdirThenAdd | NodeFileSystem.FreshMkdirAllThenAdd |
