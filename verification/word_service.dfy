/** The vocabulary store and its operations (`src/services/wordService.ts`).
    Every operation reads the whole list, computes a new list and writes it
    back; here the stored list is threaded through as a value: an operation
    takes the current list and returns the list it would write. */
module WordService {
  import opened Common
  import opened Text

  /** One vocabulary entry. `createdAt` is an epoch-millisecond timestamp. */
  datatype Word = Word(id: string, term: string, definition: string, createdAt: int)

  /** The reply of `saveWord` and `importWordsFromJSON`. */
  datatype Response = Response(success: bool, message: string)

  /** Two terms are the same word when they agree after lower-casing. */
  predicate SameTerm(a: string, b: string) {
    ToLower(a) == ToLower(b)
  }

  /** The key under which terms are compared. */
  function TermKey(w: Word): string {
    ToLower(w.term)
  }

  function IdKey(w: Word): string {
    w.id
  }

  /** The stored-list invariant: no two entries share a term, ignoring case. */
  predicate UniqueTerms(words: seq<Word>) {
    UniqueBy(words, TermKey)
  }

  /** No two entries share an id. */
  predicate UniqueIds(words: seq<Word>) {
    UniqueBy(words, IdKey)
  }

  /** Some entry's term matches `term`, ignoring case. */
  predicate HasTerm(words: seq<Word>, term: string) {
    exists i :: 0 <= i < |words| && SameTerm(words[i].term, term)
  }

  // ---------------------------------------------------------------------
  // Lookup

  /** The scan of `Array.prototype.find` from position `k` onwards: the
      position of the first entry at or after `k` whose term matches. */
  function FindFrom(words: seq<Word>, term: string, k: nat): (r: Option<nat>)
    requires k <= |words|
    ensures r.None? ==> forall j :: k <= j < |words| ==> !SameTerm(words[j].term, term)
    ensures r.Some? ==> k <= r.value < |words| && SameTerm(words[r.value].term, term)
    ensures r.Some? ==> forall j :: k <= j < r.value ==> !SameTerm(words[j].term, term)
    decreases |words| - k
  {
    if k == |words| then None
    else if SameTerm(words[k].term, term) then Some(k)
    else FindFrom(words, term, k + 1)
  }

  /** `findWordByTerm`: the first entry whose term equals `term` ignoring
      case, if there is one. */
  function FindWordByTerm(words: seq<Word>, term: string): (r: Option<Word>)
    ensures r.None? <==> !HasTerm(words, term)
    ensures r.Some? ==> exists i :: 0 <= i < |words| && words[i] == r.value &&
                                    SameTerm(words[i].term, term) &&
                                    forall j :: 0 <= j < i ==> !SameTerm(words[j].term, term)
  {
    match FindFrom(words, term, 0)
    case None => None
    case Some(i) => Some(words[i])
  }

  // ---------------------------------------------------------------------
  // Search

  /** An entry matches an already lower-cased query when its lower-cased
      term or definition contains the query. */
  predicate Matches(w: Word, lowerQuery: string) {
    Includes(ToLower(w.term), lowerQuery) || Includes(ToLower(w.definition), lowerQuery)
  }

  /** `searchWords`: the whole list for a blank query; otherwise, in stored
      order, exactly the entries matching the lower-cased query (which is
      not trimmed). */
  function SearchWords(words: seq<Word>, query: string): (r: seq<Word>)
    ensures IsBlank(query) ==> r == words
    ensures IsSubsequence(r, words)
    ensures !IsBlank(query) ==> forall i :: 0 <= i < |r| ==> Matches(r[i], ToLower(query))
    ensures !IsBlank(query) ==> |r| == Count(words, (w: Word) => Matches(w, ToLower(query)))
  {
    if Trim(query) == "" then
      SubsequenceReflexive(words);
      words
    else
      var lowerQuery := ToLower(query);
      Filter(words, (w: Word) => Matches(w, lowerQuery))
  }

  /** A non-blank search drops no matching entry. */
  lemma SearchKeepsEveryMatch(words: seq<Word>, query: string, w: Word)
    requires !IsBlank(query)
    requires w in words && Matches(w, ToLower(query))
    ensures w in SearchWords(words, query)
  {
    FilterKeeps(words, (w: Word) => Matches(w, ToLower(query)), w);
  }

  // ---------------------------------------------------------------------
  // Save

  /** The refusal `saveWord` reports for a duplicate term; the term can be
      read back from between the fixed opening and closing text. */
  function DuplicateMessage(term: string): (m: string)
    ensures IsPrefix("The word \"", m) && EndsWith(m, "\" already exists in your list.")
    ensures |m| == |term| + 40 && m[10..|m| - 30] == term
  {
    "The word \"" + term + "\" already exists in your list."
  }

  const SavedMessage := "Word saved successfully!"

  /** `saveWord`: refuses, without touching the store, a word whose term
      already exists ignoring case; otherwise appends it at the end. */
  function SaveWord(words: seq<Word>, word: Word): (r: (seq<Word>, Response))
    ensures r.1.success <==> !HasTerm(words, word.term)
    ensures r.1.success ==> r.0 == words + [word] && r.1.message == SavedMessage
    ensures !r.1.success ==> r.0 == words && r.1.message == DuplicateMessage(word.term)
  {
    if FindWordByTerm(words, word.term).Some? then
      (words, Response(false, DuplicateMessage(word.term)))
    else
      (words + [word], Response(true, SavedMessage))
  }

  /** Saving keeps the stored list free of case-insensitive duplicate terms. */
  lemma SaveWordKeepsTermsUnique(words: seq<Word>, word: Word)
    requires UniqueTerms(words)
    ensures UniqueTerms(SaveWord(words, word).0)
  {
    var r := SaveWord(words, word);
    if r.1.success {
      forall i, j | 0 <= i < |words| && 0 <= j < |[word]|
        ensures TermKey(words[i]) != TermKey([word][j])
      {
        assert !SameTerm(words[i].term, word.term);
      }
      AppendKeepsUniqueBy(words, [word], TermKey);
    }
  }

  // ---------------------------------------------------------------------
  // Delete

  /** `deleteWord`: removes every entry carrying `id` and keeps all the
      others, in their order. */
  function DeleteWord(words: seq<Word>, id: string): (r: seq<Word>)
    ensures forall i :: 0 <= i < |r| ==> r[i].id != id
    ensures IsSubsequence(r, words)
    ensures |r| == Count(words, (w: Word) => w.id != id)
  {
    Filter(words, (w: Word) => w.id != id)
  }

  /** Deleting the same id twice is deleting it once. */
  lemma DeleteWordIdempotent(words: seq<Word>, id: string)
    ensures DeleteWord(DeleteWord(words, id), id) == DeleteWord(words, id)
  {
    FilterIdempotent(words, (w: Word) => w.id != id);
  }

  /** Deleting keeps both uniqueness invariants. */
  lemma DeleteWordKeepsUnique(words: seq<Word>, id: string)
    ensures UniqueTerms(words) ==> UniqueTerms(DeleteWord(words, id))
    ensures UniqueIds(words) ==> UniqueIds(DeleteWord(words, id))
  {
    var r := DeleteWord(words, id);
    if UniqueTerms(words) {
      SubsequenceKeepsUniqueBy(r, words, TermKey);
    }
    if UniqueIds(words) {
      SubsequenceKeepsUniqueBy(r, words, IdKey);
    }
  }

  // ---------------------------------------------------------------------
  // Import

  /** A value as `JSON.parse` produces it. Objects are maps because
      `JSON.parse` keeps only the last of repeated keys. */
  datatype Json =
    | JNull
    | JBool(b: bool)
    | JNumber(n: int)
    | JString(str: string)
    | JArray(items: seq<Json>)
    | JObject(fields: map<string, Json>)

  /** What the file reader delivers: a read error, a non-string result,
      or loaded text, which `JSON.parse` either rejects (`None`) or parses. */
  datatype FileRead = ReadFailed | NonText | Loaded(parsed: Option<Json>)

  /** How an import ends; `Merged` carries the number of admitted entries
      and the number of entries in the file. */
  datatype ImportOutcome =
    | ReadError
    | CouldNotRead
    | ParseError
    | NotAnArray
    | InvalidWordData
    | Merged(admitted: nat, imported: nat)

  /** The result of checking one array element: its four fields have the
      right types, they do not, or reading a field throws (a `null`
      element), which the surrounding `try` reports as a parse error. */
  datatype Check = Valid | Invalid | Throws

  predicate HasString(fields: map<string, Json>, key: string) {
    key in fields && fields[key].JString?
  }

  predicate HasNumber(fields: map<string, Json>, key: string) {
    key in fields && fields[key].JNumber?
  }

  /** The per-element test of the `every` call. Reading a property of a
      number, string, boolean or array yields `undefined`, so those fail;
      reading a property of `null` throws. */
  function CheckEntry(v: Json): (c: Check)
    ensures c == Throws <==> v.JNull?
    ensures c == Valid <==>
      v.JObject? && HasString(v.fields, "id") && HasString(v.fields, "term") &&
      HasString(v.fields, "definition") && HasNumber(v.fields, "createdAt")
  {
    match v
    case JNull => Throws
    case JObject(f) =>
      if HasString(f, "id") && HasString(f, "term") && HasString(f, "definition") &&
         HasNumber(f, "createdAt")
      then Valid else Invalid
    case _ => Invalid
  }

  /** `Array.prototype.every` from position `k`: stops at the first
      element that is not valid and reports what that element gave. */
  function CheckFrom(items: seq<Json>, k: nat): (c: Check)
    requires k <= |items|
    ensures c == Valid <==> forall i :: k <= i < |items| ==> CheckEntry(items[i]) == Valid
    ensures c != Valid ==> exists i :: k <= i < |items| && CheckEntry(items[i]) == c &&
                                       forall j :: k <= j < i ==> CheckEntry(items[j]) == Valid
    decreases |items| - k
  {
    if k == |items| then Valid
    else if CheckEntry(items[k]) == Valid then CheckFrom(items, k + 1)
    else CheckEntry(items[k])
  }

  /** The entry a valid element denotes. Properties beyond the four fields
      are not kept. */
  function ToWord(v: Json): (w: Word)
    requires CheckEntry(v) == Valid
    ensures v.JObject? && v.fields["id"] == JString(w.id) && v.fields["term"] == JString(w.term)
    ensures v.fields["definition"] == JString(w.definition)
    ensures v.fields["createdAt"] == JNumber(w.createdAt)
  {
    Word(v.fields["id"].str, v.fields["term"].str, v.fields["definition"].str,
         v.fields["createdAt"].n)
  }

  /** The entries of a fully valid array, in order. */
  function ToWords(items: seq<Json>): (ws: seq<Word>)
    requires forall i :: 0 <= i < |items| ==> CheckEntry(items[i]) == Valid
    ensures |ws| == |items|
    ensures forall i :: 0 <= i < |items| ==> ws[i] == ToWord(items[i])
  {
    seq(|items|, i requires 0 <= i < |items| => ToWord(items[i]))
  }

  /** An imported entry is admitted when no existing entry has its id and
      no existing entry has its term, ignoring case. */
  predicate Admissible(existing: seq<Word>, w: Word) {
    (forall i :: 0 <= i < |existing| ==> existing[i].id != w.id) &&
    (forall i :: 0 <= i < |existing| ==> !SameTerm(existing[i].term, w.term))
  }

  /** The merge step of `importWordsFromJSON`: existing entries, then the
      imported entries whose id is not an existing id and whose lower-cased
      term is not an existing lower-cased term, in file order. Imported
      entries are checked against the existing list only, not against each
      other. */
  function MergeImported(existing: seq<Word>, imported: seq<Word>): (r: seq<Word>)
    ensures |existing| <= |r| && r[..|existing|] == existing
    ensures IsSubsequence(r[|existing|..], imported)
    ensures |r| - |existing| == Count(imported, (w: Word) => Admissible(existing, w))
    ensures forall i :: |existing| <= i < |r| ==> Admissible(existing, r[i])
  {
    var existingIds := Ids(existing);
    var existingTerms := LowerTerms(existing);
    var bySets := (w: Word) => w.id !in existingIds && ToLower(w.term) !in existingTerms;
    var admitted := Filter(imported, bySets);
    AdmissionBySets(existing);
    CountAgree(imported, bySets, (w: Word) => Admissible(existing, w));
    assert (existing + admitted)[|existing|..] == admitted;
    existing + admitted
  }

  /** The ids of the existing entries (`existingIds`). */
  function Ids(words: seq<Word>): set<string> {
    set w | w in words :: w.id
  }

  /** The lower-cased terms of the existing entries (`existingTerms`). */
  function LowerTerms(words: seq<Word>): set<string> {
    set w | w in words :: ToLower(w.term)
  }

  /** Testing the two sets is the same as comparing with every existing
      entry. */
  lemma AdmissionBySets(existing: seq<Word>)
    ensures forall w: Word :: (w.id !in Ids(existing) && ToLower(w.term) !in LowerTerms(existing))
                        <==> Admissible(existing, w)
  {
    forall w: Word ensures (w.id !in Ids(existing) && ToLower(w.term) !in LowerTerms(existing))
                     <==> Admissible(existing, w)
    {
      if !Admissible(existing, w) {
        var i :| 0 <= i < |existing| && (existing[i].id == w.id || SameTerm(existing[i].term, w.term));
        assert existing[i] in existing;
      }
    }
  }

  /** `importWordsFromJSON` after the file is read: fail without touching
      the store unless the payload is an array of well-typed entries, and
      otherwise merge. */
  function ImportWords(existing: seq<Word>, file: FileRead): (r: (seq<Word>, ImportOutcome))
    ensures !r.1.Merged? ==> r.0 == existing
    ensures r.1 == ReadError <==> file == ReadFailed
    ensures r.1 == CouldNotRead <==> file == NonText
    ensures r.1 == InvalidWordData <==>
      file.Loaded? && file.parsed.Some? && file.parsed.value.JArray? &&
      exists i :: 0 <= i < |file.parsed.value.items| &&
        CheckEntry(file.parsed.value.items[i]) == Invalid &&
        forall j :: 0 <= j < i ==> CheckEntry(file.parsed.value.items[j]) == Valid
    ensures r.1.Merged? <==>
      file.Loaded? && file.parsed.Some? && file.parsed.value.JArray? &&
      forall i :: 0 <= i < |file.parsed.value.items| ==> CheckEntry(file.parsed.value.items[i]) == Valid
    ensures r.1 == NotAnArray <==> file.Loaded? && file.parsed.Some? && !file.parsed.value.JArray?
    ensures r.1 == ParseError <==>
      file == Loaded(None) ||
      (file.Loaded? && file.parsed.Some? && file.parsed.value.JArray? &&
       exists i :: 0 <= i < |file.parsed.value.items| && file.parsed.value.items[i] == JNull &&
         forall j :: 0 <= j < i ==> CheckEntry(file.parsed.value.items[j]) == Valid)
    ensures r.1.Merged? ==>
      var items := file.parsed.value.items;
      && r.0 == MergeImported(existing, ToWords(items))
      && r.1.imported == |items|
      && r.1.admitted == |r.0| - |existing|
      && r.1.admitted <= r.1.imported
  {
    match file
    case ReadFailed => (existing, ReadError)
    case NonText => (existing, CouldNotRead)
    case Loaded(None) => (existing, ParseError)
    case Loaded(Some(v)) =>
      if !v.JArray? then (existing, NotAnArray)
      else
        match CheckFrom(v.items, 0)
        case Throws => (existing, ParseError)
        case Invalid => (existing, InvalidWordData)
        case Valid =>
          var imported := ToWords(v.items);
          var merged := MergeImported(existing, imported);
          SubsequenceLength(merged[|existing|..], imported);
          (merged, Merged(|merged| - |existing|, |imported|))
  }

  /** The text shown after an import. */
  function ImportMessage(o: ImportOutcome): (m: string)
    ensures o.Merged? <==> IsPrefix("Successfully imported ", m)
  {
    match o
    case ReadError => Failure("Error reading the file.")
    case CouldNotRead => Failure("Could not read the file.")
    case ParseError => Failure("Error parsing the file. " + "Please ensure it's a valid JSON file.")
    case NotAnArray => Failure("Invalid file format. " + "Expected an array of words.")
    case InvalidWordData => Failure("Invalid word data in the file.")
    case Merged(admitted, imported) =>
      "Successfully imported " + NatToString(admitted) + " new words." +
      SkipNote(admitted, imported)
  }

  /** A failure text: it never opens like the success message. */
  function Failure(text: string): (m: string)
    requires |text| > 0 && text[0] != 'S'
    ensures m == text && !IsPrefix("Successfully imported ", m)
  {
    text
  }

  /** The `{ success, message }` reply of an import. */
  function ImportResponse(o: ImportOutcome): (r: Response)
    ensures r.success <==> o.Merged?
    ensures r.message == ImportMessage(o)
  {
    Response(o.Merged?, ImportMessage(o))
  }

  /** The number of skipped entries is the number of file entries that
      fail admission. */
  lemma SkippedAreRejected(existing: seq<Word>, items: seq<Json>)
    requires forall i :: 0 <= i < |items| ==> CheckEntry(items[i]) == Valid
    ensures var r := ImportWords(existing, Loaded(Some(JArray(items))));
            r.1.Merged? &&
            r.1.imported - r.1.admitted ==
              Count(ToWords(items), (w: Word) => !Admissible(existing, w))
  {
    CountComplement(ToWords(items), (w: Word) => Admissible(existing, w),
                    (w: Word) => !Admissible(existing, w));
  }

  /** An import into a list with unique terms keeps terms unique when the
      file itself has no two entries with the same term. */
  lemma ImportKeepsTermsUnique(existing: seq<Word>, file: FileRead)
    requires UniqueTerms(existing)
    requires file.Loaded? && file.parsed.Some? && file.parsed.value.JArray?
    requires forall i :: 0 <= i < |file.parsed.value.items| ==>
               CheckEntry(file.parsed.value.items[i]) == Valid
    requires UniqueTerms(ToWords(file.parsed.value.items))
    ensures UniqueTerms(ImportWords(existing, file).0)
  {
    var imported := ToWords(file.parsed.value.items);
    var merged := ImportWords(existing, file).0;
    var admitted := merged[|existing|..];
    SubsequenceKeepsUniqueBy(admitted, imported, TermKey);
    forall i, j | 0 <= i < |existing| && 0 <= j < |admitted|
      ensures TermKey(existing[i]) != TermKey(admitted[j])
    {
      assert admitted[j] == merged[|existing| + j];
      assert !SameTerm(existing[i].term, admitted[j].term);
    }
    AppendKeepsUniqueBy(existing, admitted, TermKey);
    assert merged == existing + admitted;
  }

  /** The same holds for ids. */
  lemma ImportKeepsIdsUnique(existing: seq<Word>, file: FileRead)
    requires UniqueIds(existing)
    requires file.Loaded? && file.parsed.Some? && file.parsed.value.JArray?
    requires forall i :: 0 <= i < |file.parsed.value.items| ==>
               CheckEntry(file.parsed.value.items[i]) == Valid
    requires UniqueIds(ToWords(file.parsed.value.items))
    ensures UniqueIds(ImportWords(existing, file).0)
  {
    var imported := ToWords(file.parsed.value.items);
    var merged := ImportWords(existing, file).0;
    var admitted := merged[|existing|..];
    SubsequenceKeepsUniqueBy(admitted, imported, IdKey);
    forall i, j | 0 <= i < |existing| && 0 <= j < |admitted|
      ensures IdKey(existing[i]) != IdKey(admitted[j])
    {
      assert admitted[j] == merged[|existing| + j];
    }
    AppendKeepsUniqueBy(existing, admitted, IdKey);
    assert merged == existing + admitted;
  }

  /** The JSON value of one entry, as `JSON.stringify` writes it to storage
      and to an exported file. */
  function EntryJson(w: Word): (v: Json)
    ensures CheckEntry(v) == Valid && ToWord(v) == w
  {
    JObject(map["id" := JString(w.id), "term" := JString(w.term),
                "definition" := JString(w.definition), "createdAt" := JNumber(w.createdAt)])
  }

  /** The JSON value of a whole list. */
  function ListJson(words: seq<Word>): (v: Json)
    ensures v.JArray? && |v.items| == |words|
    ensures forall i :: 0 <= i < |words| ==> v.items[i] == EntryJson(words[i])
  {
    JArray(seq(|words|, i requires 0 <= i < |words| => EntryJson(words[i])))
  }

  /** Importing a list's own JSON value merges exactly that list. */
  lemma ImportListJson(existing: seq<Word>, words: seq<Word>)
    ensures var r := ImportWords(existing, Loaded(Some(ListJson(words))));
            r.0 == MergeImported(existing, words) &&
            r.1 == Merged(|r.0| - |existing|, |words|)
  {
    var items := ListJson(words).items;
    assert forall i :: 0 <= i < |items| ==> CheckEntry(items[i]) == Valid;
    assert CheckFrom(items, 0) == Valid;
    assert ToWords(items) == words;
  }

  /** Merging into an empty list admits everything. */
  lemma MergeIntoEmpty(words: seq<Word>)
    ensures MergeImported([], words) == words
  {
    var r := MergeImported([], words);
    assert r[0..] == r;
    CountAll(words, (w: Word) => Admissible([], w));
    SubsequenceFull(r, words);
  }

  /** A list written as JSON and imported into an empty list comes back
      whole: every entry, every field, in order. */
  lemma ImportIntoEmptyRoundTrip(words: seq<Word>)
    ensures ImportWords([], Loaded(Some(ListJson(words)))) == (words, Merged(|words|, |words|))
  {
    ImportListJson([], words);
    MergeIntoEmpty(words);
  }

  /** Entries of one file are not checked against each other: a file with
      two spellings of one term, imported into an empty list, stores both,
      so the stored list no longer has unique terms. */
  lemma ImportAdmitsDuplicatesWithinFile()
    ensures var words := [Word("1", "Cat", "A feline", 100), Word("2", "cat", "A feline", 200)];
            var r := ImportWords([], Loaded(Some(ListJson(words))));
            r.1 == Merged(2, 2) && r.0 == words && !UniqueTerms(r.0)
  {
    var words := [Word("1", "Cat", "A feline", 100), Word("2", "cat", "A feline", 200)];
    ImportIntoEmptyRoundTrip(words);
    SpellingsShareTerm(words);
  }

  lemma SpellingsShareTerm(words: seq<Word>)
    requires words == [Word("1", "Cat", "A feline", 100), Word("2", "cat", "A feline", 200)]
    ensures !UniqueTerms(words)
  {
    assert ToLower("Cat") == "cat" == ToLower("cat");
    assert TermKey(words[0]) == TermKey(words[1]);
  }

  /** An existing list holding "Cat"; a file holding that same entry and
      "Dog": one entry is admitted, one skipped, and the list grows to two. */
  lemma ImportCatDogScenario()
    ensures var cat := Word("1", "Cat", "A feline", 100);
            var dog := Word("2", "Dog", "A canine", 200);
            var r := ImportWords([cat], Loaded(Some(ListJson([cat, dog]))));
            r.1 == Merged(1, 2) && r.0 == [cat, dog]
  {
    var cat := Word("1", "Cat", "A feline", 100);
    var dog := Word("2", "Dog", "A canine", 200);
    ImportListJson([cat], [cat, dog]);
    CatDogMerge(cat, dog);
  }

  lemma CatDogMerge(cat: Word, dog: Word)
    requires cat == Word("1", "Cat", "A feline", 100)
    requires dog == Word("2", "Dog", "A canine", 200)
    ensures MergeImported([cat], [cat, dog]) == [cat, dog]
  {
    var r := MergeImported([cat], [cat, dog]);
    var admissible := (w: Word) => Admissible([cat], w);
    CatDogAdmission(cat, dog);
    FilterCharacterized(r[1..], [cat, dog], admissible);
    assert [cat, dog][1..] == [dog] && [dog][1..] == [];
    assert Filter([cat, dog], admissible) == [dog];
    assert r == [cat] + r[1..];
  }

  /** The success message mentions skipped duplicates exactly when fewer
      entries were admitted than the file held. */
  lemma ImportMessageNotesSkips(admitted: nat, imported: nat)
    requires admitted <= imported
    ensures EndsWith(ImportMessage(Merged(admitted, imported)), " duplicates were skipped.)")
            <==> admitted < imported
  {
    var m := ImportMessage(Merged(admitted, imported));
    if admitted == imported {
      assert m[|m| - 1] == '.';
    } else {
      var tail := " (" + NatToString(imported - admitted) + " duplicates were skipped.)";
      assert m == "Successfully imported " + NatToString(admitted) + " new words." + tail;
      assert m[|m| - |tail|..] == tail;
      assert EndsWith(tail, " duplicates were skipped.)");
    }
  }

  lemma CatDogAdmission(cat: Word, dog: Word)
    requires cat == Word("1", "Cat", "A feline", 100)
    requires dog == Word("2", "Dog", "A canine", 200)
    ensures !Admissible([cat], cat) && Admissible([cat], dog)
  {
    assert ToLower("Cat") == "cat";
    assert ToLower("Dog") == "dog";
    assert "cat"[0] != "dog"[0];
    assert "1"[0] != "2"[0];
    assert [cat][0] == cat;
    assert !SameTerm(cat.term, dog.term);
    assert SameTerm(cat.term, cat.term);
  }

  /** The skip note determines the number of skipped entries. */
  lemma SkipNoteDeterminesCount(k1: nat, k2: nat)
    requires " (" + NatToString(k1) + " duplicates were skipped.)" ==
             " (" + NatToString(k2) + " duplicates were skipped.)"
    ensures k1 == k2
  {
    var y := " duplicates were skipped.)";
    var s1 := " (" + NatToString(k1) + y;
    var s2 := " (" + NatToString(k2) + y;
    assert s1[2..] == NatToString(k1) + y;
    assert s2[2..] == NatToString(k2) + y;
    DigitRunUnique(NatToString(k1), y, NatToString(k2), y);
    NatToStringInjective(k1, k2);
  }

  /** The skip note of a merge: empty when nothing was skipped. */
  function SkipNote(admitted: nat, imported: nat): (r: string)
    ensures r == "" <==> imported <= admitted
    ensures imported > admitted ==>
      IsPrefix(" (", r) && EndsWith(r, " duplicates were skipped.)") && |r| > 28 &&
      r[2..|r| - 26] == NatToString(imported - admitted)
  {
    if admitted < imported
    then " (" + NatToString(imported - admitted) + " duplicates were skipped.)"
    else ""
  }

  /** The success message, cut where the counts begin. */
  lemma MergedMessageParts(a: nat, n: nat)
    ensures ImportMessage(Merged(a, n)) ==
            "Successfully imported " + (NatToString(a) + (" new words." + SkipNote(a, n)))
  {
  }

  /** The success message determines both counts: two imports with the same
      message admitted and skipped the same numbers of entries. */
  lemma ImportMessageDeterminesCounts(a1: nat, n1: nat, a2: nat, n2: nat)
    requires a1 <= n1 && a2 <= n2
    requires ImportMessage(Merged(a1, n1)) == ImportMessage(Merged(a2, n2))
    ensures a1 == a2 && n1 == n2
  {
    var x1 := " new words." + SkipNote(a1, n1);
    var x2 := " new words." + SkipNote(a2, n2);
    MergedMessageParts(a1, n1);
    MergedMessageParts(a2, n2);
    PrefixCancel("Successfully imported ", NatToString(a1) + x1, NatToString(a2) + x2);
    DigitRunUnique(NatToString(a1), x1, NatToString(a2), x2);
    NatToStringInjective(a1, a2);
    PrefixCancel(" new words.", SkipNote(a1, n1), SkipNote(a2, n2));
    EqualSkipNotes(a1, n1, a2, n2);
  }

  /** Equal skip notes mean equally many skipped entries. */
  lemma EqualSkipNotes(a1: nat, n1: nat, a2: nat, n2: nat)
    requires a1 <= n1 && a2 <= n2
    requires SkipNote(a1, n1) == SkipNote(a2, n2)
    ensures n1 - a1 == n2 - a2
  {
    if a1 < n1 || a2 < n2 {
      SkipNoteDeterminesCount(n1 - a1, n2 - a2);
    }
  }
}
