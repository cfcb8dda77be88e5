# English Word Trainer — a Dafny model of the vocabulary store and the quiz

English Word Trainer is a browser application. Users keep a personal list of
words with definitions, search it, delete entries, import and export it as a
JSON file, and practise with a four-option multiple-choice quiz. This project
models the logic behind those actions as pure Dafny functions and proves what
the code promises about them.

The browser's storage becomes a `seq<Word>` that each operation takes and
returns. `JSON.parse` becomes a loosely typed `Json` value, so the import's
shape checks are still modelled. `Math.random()` becomes numbers supplied by
the caller.

- `common.dfy` (`Common`): optional values, the order-preserving subsequence
  relation, `Filter` (the `Array.prototype.filter` the code uses everywhere),
  and keyed uniqueness with the lemmas that preserve it.
- `text.dfy` (`Text`): `toLowerCase` (ASCII), `trim` (the ECMAScript
  whitespace set), `includes` (substring), and the decimal rendering of the
  counts in the import message, with its read-back.
- `word_service.dfy` (`WordService`): `findWordByTerm`, `searchWords`,
  `saveWord`, `deleteWord`, and the validate/merge/message logic of
  `importWordsFromJSON`.
- `quiz.dfy` (`Quiz`): question generation (pick, rejection sampling of wrong
  answers, Fisher–Yates shuffle), the four-entry guard, and score keeping.
- `word_list.dfy` (`WordList`): the list view's own copy of the search filter.
- `word_form.dfy` (`WordForm`): the add-word form's blank check, trimming and
  success/failure handling.

The quiz's wrong-answer loop only ends when the list holds at least three
distinct definitions different from the correct one. Otherwise it runs
forever, even when there are four or more entries. The model gives the loop a
finite list of draws and reports `Exhausted` when they run out. Two lemmas
tie this to the list:

- `DrawNeverEndsWithoutThreeOthers`: with fewer than three such definitions,
  no finite list of draws ends the loop.
- `DrawCanEndWithThreeOthers`: with three or more, some list of draws does.

A fixed loop would stop with an error instead; the code does not, and the
model follows the code.

The import checks each entry only against the entries already stored, never
against the other entries in the same file. So a file holding "Cat" and "cat"
stores both. `ImportAdmitsDuplicatesWithinFile` shows this. The term-unique
invariant survives an import whenever the file's own terms are unique
(`ImportKeepsTermsUnique`). That is sufficient but not necessary: duplicates in
the file that are all skipped do no harm.

## Model

| member | source | states |
|---|---|---|
| `Text.ToLower` | src/services/wordService.ts:12 | lower-casing keeps the length, maps each character on its own, and leaves no upper-case ASCII letter |
| `Text.ToLowerIdempotent` | src/services/wordService.ts:12 | lower-casing a lower-cased string changes nothing, so comparing lower-cased terms is stable |
| `Text.Trim` | src/services/wordService.ts:16 | trim removes only leading and trailing whitespace, leaves a slice that neither starts nor ends with whitespace, and is empty exactly for all-whitespace input |
| `Text.TrimIdempotent` | src/components/WordForm.tsx:24-25 | trimming an already trimmed field changes nothing |
| `Text.Includes` | src/services/wordService.ts:21-24 | `includes` holds exactly when the query occurs at some position; the empty query occurs everywhere |
| `Text.NatToStringRoundTrip` | src/services/wordService.ts:116 | the digits a count is rendered with read back as that count |
| `Text.NatToStringInjective` | src/services/wordService.ts:116 | different counts render as different digit strings |
| `WordService.FindWordByTerm` | src/services/wordService.ts:10-13 | the result is absent exactly when no term matches ignoring case; otherwise it is the first entry whose term matches |
| `WordService.SearchWords` | src/services/wordService.ts:15-25 | a blank query returns the list unchanged; otherwise the result keeps stored order, every shown entry's lower-cased term or definition contains the lower-cased query, and it is as long as the number of matching entries, so no match is dropped |
| `WordService.SearchKeepsEveryMatch` | src/services/wordService.ts:21-24 | no entry matching a non-blank query is dropped |
| `WordService.DuplicateMessage` | src/services/wordService.ts:33 | the refusal opens with `The word "`, closes with `" already exists in your list.`, and the refused term reads back from between them |
| `WordService.SaveWord` | src/services/wordService.ts:27-42 | saving succeeds exactly when no stored term matches ignoring case; success appends the word at the end, failure leaves the list unchanged and names the term in the message |
| `WordService.SaveWordKeepsTermsUnique` | src/services/wordService.ts:27-41 | a list with no two case-insensitively equal terms keeps that property after a save |
| `WordService.DeleteWord` | src/services/wordService.ts:44-47 | after deletion no entry has the id, the result is an order-preserving subsequence, and it is as long as the number of entries with another id, so none of them is lost |
| `Common.FilterCharacterized` | src/services/wordService.ts:44 | a subsequence of the list whose entries all pass the filter's test and which is as long as the number of entries passing it is the filter's result, so the length clauses of the filtering operations fix their results entry by entry |
| `WordService.DeleteWordIdempotent` | src/services/wordService.ts:44-47 | deleting an id twice is deleting it once |
| `WordService.DeleteWordKeepsUnique` | src/services/wordService.ts:44-47 | deletion keeps both the term-unique and the id-unique invariants |
| `WordService.CheckEntry` | src/services/wordService.ts:90-95 | an element is valid exactly when it is an object with string `id`, `term`, `definition` and numeric `createdAt`; reading a field throws exactly for `null`; anything else is invalid |
| `WordService.CheckFrom` | src/services/wordService.ts:89-95 | the `every` check passes exactly when all elements are well-typed; otherwise its verdict is that of the first element that is not, so a `null` there throws |
| `WordService.ToWord` | src/services/wordService.ts:90-94 | a checked element yields the entry whose four fields are its string `id`, `term`, `definition` and numeric `createdAt` |
| `WordService.AdmissionBySets` | src/services/wordService.ts:104-108 | testing the existing-id set and the lower-cased-term set is the same as comparing with every existing entry |
| `WordService.MergeImported` | src/services/wordService.ts:102-111 | the merged list is the existing list followed by a subsequence of the file's entries, namely exactly the entries whose id and lower-cased term are both new |
| `WordService.ImportWords` | src/services/wordService.ts:74-125 | each outcome corresponds to exactly one kind of input: a read error to a failed read, the could-not-read outcome to a non-string result, a parse error to unparsable text or a `null` reached before any ill-typed element, a non-array to parsed text that is not an array, invalid word data to an ill-typed element reached first; every failure leaves the list unchanged, and a fully well-typed array merges, reporting the file length and the number admitted |
| `WordService.ImportMessage` | src/services/wordService.ts:74-125 | only the message of a merge opens with `Successfully imported `; none of the five failure messages does |
| `WordService.ImportResponse` | src/services/wordService.ts:114-119 | the reply reports success exactly for a merge and carries the import message for the outcome |
| `WordService.SkippedAreRejected` | src/services/wordService.ts:107-116 | the skipped count equals the number of file entries that fail admission |
| `WordService.ImportKeepsTermsUnique` | src/services/wordService.ts:103-111 | importing a file whose terms are unique keeps the stored terms unique |
| `WordService.ImportKeepsIdsUnique` | src/services/wordService.ts:103-111 | importing a file whose ids are unique keeps the stored ids unique |
| `WordService.ImportAdmitsDuplicatesWithinFile` | src/services/wordService.ts:107-109 | a file holding "Cat" and "cat", imported into an empty list, stores both, and the terms are then no longer unique |
| `WordService.EntryJson` | src/services/wordService.ts:58 | the JSON object written for an entry passes the import check and reads back as that entry |
| `WordService.ImportIntoEmptyRoundTrip` | src/services/wordService.ts:82-111 | a list written as JSON and imported into an empty list comes back whole, all entries admitted |
| `WordService.ImportCatDogScenario` | src/services/wordService.ts:103-116 | with "Cat" stored, importing "Cat" and "Dog" admits one entry, skips one, and yields the two-entry list |
| `WordService.ImportMessageNotesSkips` | src/services/wordService.ts:116 | the success message ends with the skipped-duplicates note exactly when fewer entries were admitted than the file held |
| `WordService.ImportMessageDeterminesCounts` | src/services/wordService.ts:114-117 | two success messages are equal only when their admitted counts and file lengths are equal |
| `WordService.SkipNote` | src/services/wordService.ts:116 | the note is empty exactly when nothing was skipped; otherwise it opens with ` (`, closes with ` duplicates were skipped.)`, and the digits between them render the skipped count |
| `WordService.EqualSkipNotes` | src/services/wordService.ts:116 | equal skip notes report equally many skipped entries, the empty note included |
| `Quiz.DrawIncorrect` | src/components/Quiz.tsx:49-58 | the loop's collection extends what it started with, stays pairwise distinct, and holds only list definitions different from the correct one; it stops exactly when it holds three |
| `Quiz.DrawIncorrectUsesDraws` | src/components/Quiz.tsx:52-58 | every kept wrong answer was chosen before or is the definition of a drawn entry; when the draws run out, the kept answers are exactly those chosen before plus every drawn definition different from the correct one |
| `Quiz.DrawNeverEndsWithoutThreeOthers` | src/components/Quiz.tsx:52-58 | with fewer than three distinct other definitions, no list of draws ends the loop |
| `Quiz.DrawCanEndWithThreeOthers` | src/components/Quiz.tsx:52-58 | with three or more distinct other definitions, some list of draws ends the loop |
| `Quiz.Swap` | src/components/Quiz.tsx:64 | the swap exchanges two positions, keeps the rest, and keeps the multiset |
| `Quiz.FisherYates` | src/components/Quiz.tsx:61-65 | the shuffle is a permutation of its input |
| `Common.DistinctByCounts` | src/components/Quiz.tsx:55 | a sequence has no repeats exactly when no value occurs in it twice |
| `Common.PermutationKeepsDistinct` | src/components/Quiz.tsx:61-65 | shuffling distinct options leaves them distinct |
| `Quiz.ShuffledOptionsWellFormed` | src/components/Quiz.tsx:60-65 | any rearrangement of the correct definition with three valid wrong answers gives four distinct options, the correct one exactly once, the others list definitions |
| `Quiz.GenerateNewQuestion` | src/components/Quiz.tsx:41-70 | the question's entry is the one at the picked index; a question is produced exactly when the loop ends; its options are a permutation of the correct definition and the wrong answers and form a well-formed question |
| `Quiz.GenerateQuestion` | src/components/Quiz.tsx:23-45 | below four entries there is no question; otherwise the question is about the entry at the picked index, is asked exactly when the wrong-answer loop ends within the draws, and its options are a rearrangement of the correct definition and the drawn wrong answers; any question produced is well-formed |
| `Quiz.NoQuestionWithoutFourDistinctDefinitions` | src/components/Quiz.tsx:41-58 | four or more entries whose definitions collapse to fewer than four distinct strings never yield a question |
| `Quiz.SelectOption` | src/components/Quiz.tsx:72-85 | once answered, a selection changes nothing; otherwise it records the option, adds one answered question, and adds one to the score exactly when the option is the current definition |
| `Quiz.NextQuestion` | src/components/Quiz.tsx:41-69 | below four entries the state is kept; otherwise a new question is shown exactly when the wrong-answer loop ends, showing the entry at the picked index and exactly the generated question's shuffled options; it keeps the score, clears the selection and the verdict, and is well-formed |
| `Quiz.RunScoreBounds` | src/components/Quiz.tsx:72-85 | over any sequence of actions the score stays at most the answered count, and each shown question is answered at most once |
| `Quiz.RunFromStart` | src/components/Quiz.tsx:13-14 | from the initial state the score never exceeds the answered count, which never exceeds the questions asked plus one |
| `WordList.Matching` | src/components/WordList.tsx:22-25 | the filter keeps stored order, shows only entries whose lower-cased term or definition contains the lower-cased untrimmed query, and is as long as the number of matching entries |
| `WordList.Shown` | src/components/WordList.tsx:17-28 | a whitespace-only query shows the whole list unchanged; otherwise exactly the matching entries, in order |
| `WordList.MatchingIsFilter` | src/components/WordList.tsx:22-25 | the component's filter equals the service's filter with the lower-cased query |
| `WordList.ShownIsSearch` | src/components/WordList.tsx:17-28 | for the same list and query the view shows exactly what the search returns |
| `WordForm.Submit` | src/components/WordForm.tsx:15-42 | a blank field saves nothing and changes nothing; otherwise the trimmed entry is appended exactly when its term is new; the fields are cleared exactly on success and kept with an error notice on a duplicate |
| `WordForm.SubmittedWordIsClean` | src/components/WordForm.tsx:18-27 | an entry added through the form has a non-empty, already trimmed term and definition, and the list keeps unique terms |

## Left out

- Browser storage, `JSON.parse`, `JSON.stringify`, `FileReader` and `File` are not modelled. The stored list is a value passed in and returned. The file's contents arrive already parsed as a `FileRead`.
- `exportWordsToJSON` is left out: it builds a download link, calls `alert`, and names the file after the date. Only the JSON value it writes (`EntryJson`) is modelled.
- `Date.now()` ids and timestamps in the form are clock reads. They are the `id` and `now` parameters.
- `Math.random` becomes caller-supplied numbers. Probability and uniformity are not modelled.
- Dafny strings are sequences of Unicode scalar values, while JavaScript strings are UTF-16 code units, so a lone surrogate (such as a JSON `"\uD800"`) cannot be represented. On well-formed strings `trim`, `includes` and the ASCII lower-casing behave alike in both.
- `Text.ToLower`: only ASCII letters are lower-cased, because full Unicode case mapping is a large table outside this model's logic.
- `WordService.ToWord`: JSON numbers are integers, so a non-integer `createdAt` is not modelled. Properties beyond the four fields, which the code stores unchanged, are dropped.
- `WordService.ImportWords`: a stored list that no longer parses is not modelled, because the store is a typed value here.
- `Quiz.NextQuestion`: a wrong-answer loop that never ends is shown as `None` once the supplied draws run out.
- The 300 ms delays are left out: the question animation, the form's save and the delete spinner. So are the message timeouts, the `isSubmitting` and `deletingId` flags, and the score bar's `Math.round` percentage. They are timing and display only.
- The form's and list's callbacks that reload the list in the parent (`onWordAdded`, `onWordDeleted`) are UI wiring.
- JSX rendering, page routing in `App.tsx`, and `toUpperCase` display formatting are not modelled.
