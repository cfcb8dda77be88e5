/** The search box of the list view (`src/components/WordList.tsx`). The
    component filters the list it is given with its own copy of the search
    logic instead of calling the service. */
module WordList {
  import opened Common
  import opened Text
  import opened WordService

  /** The component's test: the lower-cased term or definition contains
      the lower-cased (untrimmed) query. */
  predicate QueryMatches(w: Word, query: string) {
    Includes(ToLower(w.term), ToLower(query)) || Includes(ToLower(w.definition), ToLower(query))
  }

  /** The `words.filter(...)` call, written out entry by entry. */
  function Matching(words: seq<Word>, query: string): (r: seq<Word>)
    ensures IsSubsequence(r, words)
    ensures forall i :: 0 <= i < |r| ==> QueryMatches(r[i], query)
    ensures |r| == Count(words, (w: Word) => QueryMatches(w, query))
    decreases |words|
  {
    if |words| == 0 then []
    else
      var rest := Matching(words[1..], query);
      if QueryMatches(words[0], query) then [words[0]] + rest else rest
  }

  /** The list the view shows for a query: everything when the query is
      blank, otherwise the matching entries in stored order. */
  function Shown(words: seq<Word>, query: string): (r: seq<Word>)
    ensures IsBlank(query) ==> r == words
    ensures !IsBlank(query) ==> IsSubsequence(r, words)
    ensures !IsBlank(query) ==> forall i :: 0 <= i < |r| ==> QueryMatches(r[i], query)
    ensures !IsBlank(query) ==> |r| == Count(words, (w: Word) => QueryMatches(w, query))
  {
    if Trim(query) == "" then words else Matching(words, query)
  }

  /** The component's filter is the service's filter. */
  lemma {:induction false} MatchingIsFilter(words: seq<Word>, query: string)
    ensures Matching(words, query) == Filter(words, (w: Word) => Matches(w, ToLower(query)))
    decreases |words|
  {
    if |words| > 0 {
      MatchingIsFilter(words[1..], query);
    }
  }

  /** For the same list and query the view shows exactly what the
      service's search returns. */
  lemma ShownIsSearch(words: seq<Word>, query: string)
    ensures Shown(words, query) == SearchWords(words, query)
  {
    MatchingIsFilter(words, query);
  }
}
