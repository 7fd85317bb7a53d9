/**
 * Frequency counting: fold a token sequence into a word -> count map,
 * inserting an unseen word with 0 and adding 1 per occurrence.
 *
 * `Frequencies` is the fold the counting loop performs; the lemmas say what
 * the map means (its keys are the distinct tokens, each value is that
 * token's number of occurrences, the values add up to the number of
 * tokens) and that the order of the tokens does not matter.
 */
module Freq {

  /** `*counts.entry(w).or_insert(0) += 1` */
  function Bump(m: map<string, nat>, w: string): (r: map<string, nat>)
    ensures r.Keys == m.Keys + {w}
    ensures r[w] == (if w in m then m[w] else 0) + 1
    ensures forall v :: v in m && v != w ==> r[v] == m[v]
  {
    m[w := (if w in m then m[w] else 0) + 1]
  }

  /** The map after counting every token of `tokens`, front to back. */
  function Frequencies(tokens: seq<string>): map<string, nat> {
    if tokens == [] then map[]
    else Bump(Frequencies(tokens[..|tokens| - 1]), tokens[|tokens| - 1])
  }

  /** Counting one more token bumps its entry. */
  lemma FrequenciesSnoc(tokens: seq<string>, w: string)
    ensures Frequencies(tokens + [w]) == Bump(Frequencies(tokens), w)
  {
    assert (tokens + [w])[..|tokens|] == tokens;
  }

  /**
   * The keys are exactly the distinct tokens, and each word's count is its
   * number of occurrences, hence at least 1.
   */
  lemma {:induction false} FrequenciesAreOccurrences(tokens: seq<string>)
    ensures forall w :: w in Frequencies(tokens) <==> w in tokens
    ensures forall w :: w in Frequencies(tokens) ==> Frequencies(tokens)[w] == multiset(tokens)[w]
    ensures forall w :: w in Frequencies(tokens) ==> Frequencies(tokens)[w] >= 1
  {
    if tokens != [] {
      var init, last := tokens[..|tokens| - 1], tokens[|tokens| - 1];
      FrequenciesAreOccurrences(init);
      assert tokens == init + [last];
      assert multiset(tokens) == multiset(init) + multiset{last};
      forall w ensures w in tokens <==> w in init || w == last {
        assert w in init ==> w in tokens;
      }
    }
  }

  /** Counting is insensitive to token order. */
  lemma FrequenciesPermutation(t1: seq<string>, t2: seq<string>)
    requires multiset(t1) == multiset(t2)
    ensures Frequencies(t1) == Frequencies(t2)
  {
    FrequenciesAreOccurrences(t1);
    FrequenciesAreOccurrences(t2);
    forall w ensures w in t1 <==> w in t2 {
      assert w in t1 <==> w in multiset(t1);
      assert w in t2 <==> w in multiset(t2);
    }
  }

  // ---------------------------------------------------------------------
  // Sum of the counts.

  /** The sum of all values of a map. */
  ghost function Total(m: map<string, nat>): nat
    decreases |m|
  {
    if m == map[] then 0
    else
      var k :| k in m;
      assert |m - {k}| < |m| by { assert m.Keys - {k} < m.Keys; assert (m - {k}).Keys == m.Keys - {k}; }
      m[k] + Total(m - {k})
  }

  /** The sum can be taken starting from any key. */
  lemma {:induction false} TotalRemove(m: map<string, nat>, k: string)
    requires k in m
    ensures Total(m) == m[k] + Total(m - {k})
    decreases |m|
  {
    var k' :| k' in m && Total(m) == m[k'] + Total(m - {k'});
    if k' != k {
      assert (m - {k'}).Keys == m.Keys - {k'};
      assert |m - {k'}| < |m|;
      assert (m - {k}).Keys == m.Keys - {k};
      assert |m - {k}| < |m|;
      TotalRemove(m - {k'}, k);
      TotalRemove(m - {k}, k');
      assert m - {k'} - {k} == m - {k} - {k'};
    }
  }

  lemma TotalBump(m: map<string, nat>, w: string)
    ensures Total(Bump(m, w)) == Total(m) + 1
  {
    var b := Bump(m, w);
    TotalRemove(b, w);
    if w in m {
      TotalRemove(m, w);
      assert b - {w} == m - {w};
    } else {
      assert b - {w} == m;
    }
  }

  /** The counts add up to the number of tokens. */
  lemma {:induction false} FrequenciesTotal(tokens: seq<string>)
    ensures Total(Frequencies(tokens)) == |tokens|
  {
    if tokens != [] {
      FrequenciesTotal(tokens[..|tokens| - 1]);
      TotalBump(Frequencies(tokens[..|tokens| - 1]), tokens[|tokens| - 1]);
    }
  }

  // ---------------------------------------------------------------------
  // The counting loop.

  /** `count`: one pass over the tokens, bumping each one's entry. */
  method Count(tokens: seq<string>) returns (counts: map<string, nat>)
    ensures counts == Frequencies(tokens)
    ensures forall w :: w in counts <==> w in tokens
    ensures forall w :: w in counts ==> counts[w] == multiset(tokens)[w]
  {
    counts := map[];
    var i := 0;
    while i < |tokens|
      invariant 0 <= i <= |tokens|
      invariant counts == Frequencies(tokens[..i])
    {
      var token := tokens[i];
      assert tokens[..i + 1] == tokens[..i] + [token];
      FrequenciesSnoc(tokens[..i], token);
      counts := Bump(counts, token);
      i := i + 1;
    }
    assert tokens[..i] == tokens;
    FrequenciesAreOccurrences(tokens);
  }
}
