# Yoruba OT grammar: syllabifier and constraints

This project models the core of a small Optimality-Theory grammar for Yoruba.

A word is a sequence of segments. Each segment holds one grapheme cluster and its syllable position: `Onset`, `Nucleus`, `Coda` or `None`.

The syllabifier runs three passes over a word:

- nuclei: a segment whose text is exactly one of the seven vowel strings becomes a nucleus;
- onsets: scanning from the right, an unplaced segment directly before a nucleus becomes an onset;
- codas: every segment still unplaced becomes a coda.

A syllabified candidate is built from grapheme clusters. It can lose one segment at a time by deletion, and it renders back to text by concatenation.

The constraints count violations on a surface form:

- Onset: nuclei minus onsets;
- SonSeqPr: a sonority weight per segment, summed;
- Syllabify: unplaced segments;
- Max: three per deleted segment;
- MaxOnsetSonSeqPr: the sum of Max, Onset and SonSeqPr.

Every unsigned subtraction of the source becomes a precondition, and the model proves where those preconditions hold.

Files and modules:

- `segments.dfy` (`Segments`): the segment datatype, the vowel list, counting and rendering.
- `utils.dfy` (`Utils`): the vector with its in-place `PushRet`.
- `syllabifier.dfy` (`Syllabifier`): the three passes, the fold that runs the onset pass, and their properties.
- `candidate.dfy` (`Candidates`): the candidate class with deletion, and the early Onset constraint that sits beside it.
- `constraints.dfy` (`Constraints`): the constraint evaluators, the constraint kinds and ranked constraints.

Notes on the model:

- The source names a segment's fields `char` and `char_type`. The model calls them `text` and `charType`.
- The constraint file reads the same four-valued position under the names `syllable_index` / `SyllableIndex`. One datatype, `SegmentType`, serves both files.
- The struct `RankedConstraint { rank, constraint }`, whose constraint is a boxed trait object (yoruba-ot/src/constraint.rs:6-15), becomes the datatype `RankedConstraint(rank, constraint)`, whose `constraint` is a `ConstraintKind`: one constructor per modelled constraint, with Max and MaxOnsetSonSeqPr carrying their underlying form. `Defined` collects, per kind, the conditions under which the source's evaluator returns without a panic.
- Constraints are values and evaluation is a function of its arguments. So evaluating a constraint can never change the constraint or the underlying form it holds; this needs no separate lemma.
- The coda pass follows the code: every leftover `None` becomes `Coda`, wherever it sits. The source's own comment at yoruba-ot/src/main.rs:79 speaks of marking codas "in remaining spaces after vowels", but the code also makes a coda of an unplaced segment at the start of a word, before any vowel.
- Vowel recognition also follows the code. It is exact string equality against the seven vowels, so a vowel written with a combining accent (`ó` = `o` + U+0301) is not a nucleus. `OwokiowoPositions` shows this on the test word "owókíowó": the accented `í` is tagged as the onset of the following `o`.
- A deletion keeps the positions computed before it. `DeleteKeepsStaleOnset` shows that removing the vowel of "ta" leaves an onset with no nucleus after it. On such a form Onset's precondition does not hold.

## Model

| member | source | states |
|---|---|---|
| `Segments.MorphType` | yoruba-ot/src/main.rs:67-74 | the copy keeps the text and carries exactly the new position |
| `Segments.IsVowel` | yoruba-ot/src/main.rs:85 | the vowel test is exact membership in the seven-string list, so only a single-character text can be a vowel |
| `Segments.Count` | yoruba-ot/src/constraint.rs:116-121 | a filter-count of one position is at most the form's length, and is zero exactly when no segment has that position |
| `Segments.Untagged` | yoruba-ot/src/main.rs:49-54 | the form built from grapheme clusters has one unplaced segment per cluster, with that cluster's text |
| `Segments.Render` | yoruba-ot/src/main.rs:61-65 | the rendered text starts with the first segment's text, and has at least one character per segment when no text is empty |
| `Segments.RenderAppend` | yoruba-ot/src/main.rs:61-65 | rendering a concatenation of forms is the concatenation of their renderings |
| `Segments.RenderSameTexts` | yoruba-ot/src/main.rs:61-65 | rendering reads only the texts: forms that differ only in positions render the same |
| `Segments.RenderUntagged` | yoruba-ot/src/main.rs:45-65 | rendering the untagged form gives back the concatenated grapheme clusters |
| `Utils.Vec.PushRet` | yoruba-ot/src/utils.rs:6-9 | after the call the vector is one longer, ends with `t`, keeps its earlier elements in order, and the result is the same vector object |
| `Utils.Vec.Reverse` | yoruba-ot/src/main.rs:109 | the vector is reversed in place: same length, element k is the old element at the mirrored index |
| `Syllabifier.MarkVowels` | yoruba-ot/src/main.rs:76-92 | texts and length are kept; a segment becomes a nucleus exactly when its text is one of VOWELS, and every other segment keeps its position |
| `Syllabifier.OnsetStep` | yoruba-ot/src/main.rs:97-106 | one fold step keeps the text; the result is an onset exactly when the right neighbour is a nucleus and the segment was unplaced, or it already was an onset; otherwise the segment is unchanged |
| `Syllabifier.MarkOnsets` | yoruba-ot/src/main.rs:94-112 | the right-to-left fold gives, at each position i, an onset exactly when segment i was unplaced and segment i+1 is a nucleus; otherwise segment i is unchanged, so the last segment never becomes an onset |
| `Syllabifier.MarkOnsetsFold` | yoruba-ot/src/main.rs:94-112 | the loop that pushes onto a vector from the right and then reverses it yields exactly the fold's result |
| `Syllabifier.MarkCodas` | yoruba-ot/src/main.rs:114-122 | texts and length are kept; every unplaced segment becomes a coda wherever it sits, and every other segment keeps its position |
| `Syllabifier.Syllabify` | yoruba-ot/src/main.rs:124-126 | the three passes keep length and texts, leave no segment unplaced, and make every vowel a nucleus |
| `Syllabifier.SyllabifyUntaggedRoles` | yoruba-ot/src/main.rs:76-126 | on an untagged word, a segment is a nucleus if it is a vowel, an onset if it is not a vowel and the next segment is, and a coda otherwise |
| `Syllabifier.SyllabifyOnsetsPrecedeNuclei` | yoruba-ot/src/main.rs:94-112 | after syllabifying an untagged word, every onset is immediately followed by a nucleus |
| `Syllabifier.OnsetsAtMostNuclei` | yoruba-ot/src/main.rs:94-112 | a form in which every onset precedes a nucleus has no more onsets than nuclei |
| `Syllabifier.SyllabifyIdempotent` | yoruba-ot/src/main.rs:76-126 | syllabifying a syllabified form changes nothing, for every input |
| `Candidates.RemoveAt` | yoruba-ot/src/main.rs:39 | removal at index i shortens the form by one and keeps the segments before i and after i in order |
| `Candidates.RenderRemoveAt` | yoruba-ot/src/main.rs:37-42 | removing segment i removes exactly its text from the rendered string |
| `Candidates.DeleteOnce` | yoruba-ot/src/main.rs:37-42 | deletion leaves an empty form empty and otherwise removes exactly one segment at some index |
| `Candidates.CountRemoveAt` | yoruba-ot/src/main.rs:37-42 | removing segment i lowers the count of its own position by one and leaves the count of every other position unchanged |
| `Candidates.DeleteMany` | yoruba-ot/src/main.rs:206-233 | a chain of deletions never lengthens the form, and no deletion leaves it as it was |
| `Candidates.DeleteManyLength` | yoruba-ot/src/main.rs:202-236 | each deletion shortens a non-empty form by one; deleting at least as often as there are segments leaves the empty form |
| `Candidates.DeleteManyKeepsSegments` | yoruba-ot/src/main.rs:37-42 | every segment left after any chain of deletions was a segment of the original form |
| `Candidates.SyllabifiedCandidate.constructor` | yoruba-ot/src/main.rs:45-59 | the candidate's form is the syllabified untagged form of its grapheme clusters |
| `Candidates.SyllabifiedCandidate.Delete` | yoruba-ot/src/main.rs:36-43 | in place: an empty form stays empty, otherwise the segment at the drawn index is removed; the same candidate is returned |
| `Candidates.OnsetEvaluateAsWritten` | yoruba-ot/src/main.rs:166-181 | onsets minus nuclei, defined only when onsets are at least nuclei; zero exactly when they are equal |
| `Candidates.OnsetAsWrittenOnlyZero` | yoruba-ot/src/main.rs:166-181 | on any syllabified word, wherever that subtraction is defined it yields 0 |
| `Candidates.OnsetAsWrittenUnderflows` | yoruba-ot/src/main.rs:180 | the word "a" has no onset and one nucleus, so that subtraction goes below zero on it |
| `Candidates.DeleteKeepsStaleOnset` | yoruba-ot/src/main.rs:37-42 | deleting the vowel of "ta" leaves a lone onset: more onsets than nuclei |
| `Candidates.OwokiowoPositions` | yoruba-ot/src/main.rs:14 | on "owókíowó" only the plain `o` are nuclei; `í` is the onset of the second `o` and everything else is a coda |
| `Constraints.OnsetEvaluate` | yoruba-ot/src/constraint.rs:69-83 | nuclei minus onsets, defined when onsets do not exceed nuclei; at most the nucleus count, and zero exactly when the counts match |
| `Constraints.OnsetCountsBareNuclei` | yoruba-ot/src/constraint.rs:69-83 | when every onset precedes a nucleus, Onset is defined and equals the number of nuclei not directly preceded by an onset |
| `Constraints.Weight` | yoruba-ot/src/constraint.rs:100-105 | the sonority weight of a character is at most 3 |
| `Constraints.SonSeqPrEvaluate` | yoruba-ot/src/constraint.rs:92-107 | needs a first character in every segment; the sum is at most 3 times the number of segments |
| `Constraints.SonSeqPrAppend` | yoruba-ot/src/constraint.rs:92-107 | SonSeqPr of a concatenation is the sum of the parts' scores |
| `Constraints.SonSeqPrFirstCharsOnly` | yoruba-ot/src/constraint.rs:96-100 | forms whose texts start with the same characters score the same, whatever follows those characters and whatever the positions |
| `Constraints.SonSeqPrRemoveAt` | yoruba-ot/src/constraint.rs:92-107 | removing a segment lowers SonSeqPr by exactly that segment's weight |
| `Constraints.SonSeqPrDeleteMany` | yoruba-ot/src/constraint.rs:92-107 | no chain of deletions raises SonSeqPr |
| `Constraints.SonSeqPrSyllabify` | yoruba-ot/src/constraint.rs:92-107 | syllabification leaves SonSeqPr unchanged |
| `Constraints.SonSeqPrOwokiowo` | yoruba-ot/src/constraint.rs:100-106 | the test word "owókíowó" scores 7 |
| `Constraints.SyllabifyEvaluate` | yoruba-ot/src/constraint.rs:116-122 | the count of unplaced segments is at most the length, and zero exactly when every segment has a position |
| `Constraints.SyllabifyEvaluateSyllabified` | yoruba-ot/src/constraint.rs:116-122 | a syllabified form never violates Syllabify |
| `Constraints.MaxEvaluate` | yoruba-ot/src/constraint.rs:131-133 | defined when the surface is no longer than the underlying form; always a multiple of 3, and zero exactly when the lengths are equal |
| `Constraints.MaxAfterDeletions` | yoruba-ot/src/constraint.rs:131-133 | after k deletions from the underlying form, Max is 3k |
| `Constraints.MaxOnsetSonSeqPrEvaluate` | yoruba-ot/src/constraint.rs:142-150 | defined where Max, Onset and SonSeqPr all are; at least each of them, and zero exactly when all three are zero |
| `Constraints.Evaluate` | yoruba-ot/src/constraint.rs:6-8 | evaluating any constraint kind gives that kind's bounds; MaxOnsetSonSeqPr is at least each of Max, Onset and SonSeqPr |
| `Constraints.Defined` | yoruba-ot/src/constraint.rs:69-150 | Syllabify can be evaluated on every surface, and every constraint kind can be evaluated on the empty surface |
| `Constraints.DefinedOnSyllabifiedWord` | yoruba-ot/src/constraint.rs:69-133 | on a syllabified word of non-empty grapheme clusters, every constraint kind can be evaluated: no unsigned subtraction underflows and SonSeqPr always finds a first character |

## Left out

- The random number generator of a candidate is left out. This covers its seed (7777777) and the index it draws for a deletion. Each deletion takes the draw as a parameter; index `draw % |form|` stands for any index in range. The tests' exact outputs ("tst", "wówó") depend on the generator's stream and are not modelled.
- Grapheme segmentation of the input string is a Unicode algorithm from an external library. The model takes the input as an already segmented sequence of grapheme clusters.
- The Ident and Dep constraints are left out, and so is the `Ident = 3` test. They count operations of an external grapheme diff, and that library is not part of this model.
- Dynamic dispatch over boxed constraints is replaced by the datatype `ConstraintKind` and the function `Evaluate`. The `Debug` formatting of `RankedConstraint` is presentation only.
- The debug print in `main` is I/O.
- Candidate generation and the ranked tableau evaluator are not in these source files.
- Unsigned underflow is modelled as a precondition on each evaluator, not as a panic or a wrap-around.
- Counts are unbounded naturals. The 64-bit overflow of `usize` sums and of Max's multiplication by 3 is not modelled; it needs forms of about 2^62 segments.
- `mark_onsets` clones the accumulating vector after each push (`to_owned`). The clone has the same contents, so the model keeps one vector.
- `Constraints.MaxOnsetSonSeqPrEvaluate`: its contract gives bounds and the zero case. The exact sum of Max, Onset and SonSeqPr is its definition and is not repeated as a postcondition.

## Findings

| source | as written | input that shows it | evidently intended | confidence | as-written member | corrected member |
|---|---|---|---|---|---|---|
| yoruba-ot/src/main.rs:180 | Onset returns `onsets - syllabi` in unsigned arithmetic | the word "a": no onset, one nucleus, so 0 − 1 goes below zero | nuclei minus onsets, as yoruba-ot/src/constraint.rs:82 computes it | high; not executed | `Candidates.OnsetAsWrittenUnderflows` | `Constraints.OnsetCountsBareNuclei` |
