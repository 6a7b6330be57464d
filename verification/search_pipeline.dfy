/** The untimed part of the search-text pipelines: after debouncing, blank
    texts are dropped and a text equal to the one issued just before it is
    not issued again. Every text that survives becomes a forward-geocoding
    search. */
module SearchPipeline {
  import opened Wrappers
  import opened Text
  import opened Flows

  /** `filter { it.isNotBlank() }`. */
  function DropBlank(queries: seq<string>): (r: seq<string>)
    ensures |r| <= |queries|
    ensures |queries| > 0 && !IsBlank(queries[0]) ==> |r| > 0 && r[0] == queries[0]
  {
    if |queries| == 0 then []
    else if IsBlank(queries[0]) then DropBlank(queries[1..])
    else [queries[0]] + DropBlank(queries[1..])
  }

  /** The filter keeps exactly the non-blank texts. */
  lemma {:induction false} DropBlankMembers(queries: seq<string>)
    ensures forall q :: q in DropBlank(queries) <==> q in queries && !IsBlank(q)
    decreases |queries|
  {
    if |queries| > 0 {
      DropBlankMembers(queries[1..]);
      assert queries == [queries[0]] + queries[1..];
    }
  }

  /** Filtering a concatenation filters each part: the surviving texts
      keep their order. */
  lemma {:induction false} DropBlankDistributes(a: seq<string>, b: seq<string>)
    ensures DropBlank(a + b) == DropBlank(a) + DropBlank(b)
    decreases |a|
  {
    if |a| > 0 {
      assert (a + b)[0] == a[0];
      assert (a + b)[1..] == a[1..] + b;
      DropBlankDistributes(a[1..], b);
    } else {
      assert a + b == b;
    }
  }

  /** Dropping blanks from a sequence with none changes nothing. */
  lemma {:induction false} DropBlankFixesNonBlank(queries: seq<string>)
    requires forall i :: 0 <= i < |queries| ==> !IsBlank(queries[i])
    ensures DropBlank(queries) == queries
    decreases |queries|
  {
    if |queries| > 0 {
      DropBlankFixesNonBlank(queries[1..]);
      assert queries == [queries[0]] + queries[1..];
    }
  }

  /** The searches issued for the texts reaching the pipeline. */
  function IssuedSearches(queries: seq<string>): (r: seq<string>)
    ensures |r| <= |queries|
    ensures forall i :: 0 <= i < |r| ==> !IsBlank(r[i])
    ensures NoRepeats(r)
    ensures forall q :: q in r <==> q in queries && !IsBlank(q)
  {
    var nonBlank := DropBlank(queries);
    var r := DistinctUntilChanged(nonBlank, None);
    DropBlankMembers(queries);
    DistinctShape(nonBlank, None);
    assert forall q :: q in nonBlank ==> q in r by {
      forall q | q in nonBlank ensures q in r {
        DistinctKeepsValues(nonBlank, None, q);
      }
    }
    r
  }

  /** Feeding the issued searches through the pipeline again issues
      exactly the same searches. */
  lemma IssuedSearchesIdempotent(queries: seq<string>)
    ensures IssuedSearches(IssuedSearches(queries)) == IssuedSearches(queries)
  {
    var r := IssuedSearches(queries);
    DropBlankFixesNonBlank(r);
    DistinctFixesNoRepeats(r, None);
  }

  /** One more text reaching the pipeline: it is issued exactly when it is
      not blank and differs from the last non-blank text before it. So the
      searches are issued in input order, once per change of text. */
  lemma IssuedSearchesStep(queries: seq<string>, q: string)
    ensures IssuedSearches(queries + [q]) ==
      IssuedSearches(queries) +
      (if IsBlank(q) || LastOf(DropBlank(queries), None) == Some(q) then [] else [q])
  {
    DropBlankDistributes(queries, [q]);
    assert [q][1..] == [];
    assert DropBlank([q]) == if IsBlank(q) then [] else [q];
    if IsBlank(q) {
      assert DropBlank(queries) + [] == DropBlank(queries);
    } else {
      DistinctStep(DropBlank(queries), q, None);
    }
  }

  /** Two equal non-blank texts in a row issue one search; the same text
      after a different one is issued again. */
  lemma RepeatIssuedOnceAfterChange(a: string, b: string)
    requires !IsBlank(a) && !IsBlank(b) && a != b
    ensures IssuedSearches([a, a]) == [a]
    ensures IssuedSearches([a, b, a]) == [a, b, a]
  {
    IssuedSearchesStep([], a);
    assert [] + [a] == [a];
    IssuedSearchesStep([a], a);
    assert [a] + [a] == [a, a];
    IssuedSearchesStep([a], b);
    assert [a] + [b] == [a, b];
    DropBlankFixesNonBlank([a, b]);
    IssuedSearchesStep([a, b], a);
    assert [a, b] + [a] == [a, b, a];
  }
}
