/** Counting functions that describe the sufficient statistics of the LDA
    sampler in terms of its topic assignment, and the facts about them that
    the count state relies on.

    A corpus is a sequence of documents and a document a sequence of word ids.
    A topic assignment has the same shape as the corpus and holds one topic id
    per word occurrence. Every function recurses on the LAST element, because
    the sampler builds its state by appending occurrences. */
module Counts {

  /** Every word id of `docs` lies in `[0, V)`. */
  ghost predicate InVocabulary(docs: seq<seq<nat>>, V: nat)
  {
    forall m, n :: 0 <= m < |docs| && 0 <= n < |docs[m]| ==> docs[m][n] < V
  }

  /** `z` gives every occurrence of `docs` exactly one entry. */
  ghost predicate Shaped(docs: seq<seq<nat>>, z: seq<seq<nat>>)
  {
    |docs| == |z| && forall m :: 0 <= m < |docs| ==> |docs[m]| == |z[m]|
  }

  /** Every entry of `z` is a topic id in `[0, K)`. */
  ghost predicate TopicsBelow(z: seq<seq<nat>>, K: nat)
  {
    forall m, n :: 0 <= m < |z| && 0 <= n < |z[m]| ==> z[m][n] < K
  }

  /** Total number of occurrences of a corpus. */
  ghost function TotalLength(docs: seq<seq<nat>>): nat
  {
    if docs == [] then 0 else TotalLength(docs[..|docs| - 1]) + |docs[|docs| - 1]|
  }

  /** Number of occurrences of one document assigned topic `k`. */
  ghost function Occurrences(zs: seq<nat>, k: nat): nat
  {
    if zs == [] then 0
    else Occurrences(zs[..|zs| - 1], k) + (if zs[|zs| - 1] == k then 1 else 0)
  }

  /** Number of occurrences of word `t` in `doc` assigned topic `k` by `zs`. */
  ghost function WordOccurrences(doc: seq<nat>, zs: seq<nat>, k: nat, t: nat): nat
    requires |doc| == |zs|
  {
    if zs == [] then 0
    else WordOccurrences(doc[..|doc| - 1], zs[..|zs| - 1], k, t)
         + (if doc[|doc| - 1] == t && zs[|zs| - 1] == k then 1 else 0)
  }

  /** Number of occurrences of the whole corpus assigned topic `k`. */
  ghost function CorpusOccurrences(z: seq<seq<nat>>, k: nat): nat
  {
    if z == [] then 0 else CorpusOccurrences(z[..|z| - 1], k) + Occurrences(z[|z| - 1], k)
  }

  /** Number of occurrences of word `t` in the whole corpus assigned topic `k`. */
  ghost function CorpusWordOccurrences(docs: seq<seq<nat>>, z: seq<seq<nat>>, k: nat, t: nat): nat
    requires Shaped(docs, z)
  {
    if z == [] then 0
    else CorpusWordOccurrences(docs[..|docs| - 1], z[..|z| - 1], k, t)
         + WordOccurrences(docs[|docs| - 1], z[|z| - 1], k, t)
  }

  /** Sum over the topics `k < j` of `Occurrences(zs, k)`. */
  ghost function TopicSum(zs: seq<nat>, j: nat): nat
  {
    if j == 0 then 0 else TopicSum(zs, j - 1) + Occurrences(zs, j - 1)
  }

  /** Sum over the topics `k < j` of `CorpusOccurrences(z, k)`. */
  ghost function CorpusTopicSum(z: seq<seq<nat>>, j: nat): nat
  {
    if j == 0 then 0 else CorpusTopicSum(z, j - 1) + CorpusOccurrences(z, j - 1)
  }

  /** Sum over the words `t < j` of `WordOccurrences(doc, zs, k, t)`. */
  ghost function WordSum(doc: seq<nat>, zs: seq<nat>, k: nat, j: nat): nat
    requires |doc| == |zs|
  {
    if j == 0 then 0 else WordSum(doc, zs, k, j - 1) + WordOccurrences(doc, zs, k, j - 1)
  }

  /** Sum over the words `t < j` of `CorpusWordOccurrences(docs, z, k, t)`. */
  ghost function CorpusWordSum(docs: seq<seq<nat>>, z: seq<seq<nat>>, k: nat, j: nat): nat
    requires Shaped(docs, z)
  {
    if j == 0 then 0 else CorpusWordSum(docs, z, k, j - 1) + CorpusWordOccurrences(docs, z, k, j - 1)
  }

  // ---------------------------------------------------------------------------
  // Appending one occurrence or one document

  lemma OccurrencesSnoc(zs: seq<nat>, x: nat, k: nat)
    ensures Occurrences(zs + [x], k) == Occurrences(zs, k) + (if x == k then 1 else 0)
  {
    assert (zs + [x])[..|zs|] == zs;
  }

  lemma WordOccurrencesSnoc(doc: seq<nat>, zs: seq<nat>, t: nat, x: nat, k: nat, w: nat)
    requires |doc| == |zs|
    ensures WordOccurrences(doc + [t], zs + [x], k, w)
         == WordOccurrences(doc, zs, k, w) + (if t == w && x == k then 1 else 0)
  {
    assert (doc + [t])[..|doc|] == doc;
    assert (zs + [x])[..|zs|] == zs;
  }

  lemma ShapedSnoc(docs: seq<seq<nat>>, z: seq<seq<nat>>, d: seq<nat>, w: seq<nat>)
    requires Shaped(docs, z) && |d| == |w|
    ensures Shaped(docs + [d], z + [w])
    ensures (docs + [d])[..|docs|] == docs && (z + [w])[..|z|] == z
  {
    assert (docs + [d])[..|docs|] == docs;
    assert (z + [w])[..|z|] == z;
  }

  lemma TotalLengthSnoc(docs: seq<seq<nat>>, d: seq<nat>)
    ensures TotalLength(docs + [d]) == TotalLength(docs) + |d|
  {
    assert (docs + [d])[..|docs|] == docs;
  }

  /** Adding one more document to the corpus adds its counts. */
  lemma CorpusSnoc(docs: seq<seq<nat>>, z: seq<seq<nat>>, d: seq<nat>, w: seq<nat>, k: nat, t: nat)
    requires Shaped(docs, z) && |d| == |w|
    ensures Shaped(docs + [d], z + [w])
    ensures CorpusOccurrences(z + [w], k) == CorpusOccurrences(z, k) + Occurrences(w, k)
    ensures CorpusWordOccurrences(docs + [d], z + [w], k, t)
         == CorpusWordOccurrences(docs, z, k, t) + WordOccurrences(d, w, k, t)
  {
    ShapedSnoc(docs, z, d, w);
  }

  /** Appending occurrence `(t, x)` to the last document of a corpus adds
      exactly that occurrence to the corpus-wide counts. */
  lemma {:induction false} CorpusExtendLast(docs: seq<seq<nat>>, z: seq<seq<nat>>, t: nat, x: nat, k: nat, w: nat)
    requires Shaped(docs, z) && z != []
    ensures Shaped(docs[..|docs| - 1] + [docs[|docs| - 1] + [t]], z[..|z| - 1] + [z[|z| - 1] + [x]])
    ensures CorpusOccurrences(z[..|z| - 1] + [z[|z| - 1] + [x]], k)
         == CorpusOccurrences(z, k) + (if x == k then 1 else 0)
    ensures CorpusWordOccurrences(docs[..|docs| - 1] + [docs[|docs| - 1] + [t]], z[..|z| - 1] + [z[|z| - 1] + [x]], k, w)
         == CorpusWordOccurrences(docs, z, k, w) + (if t == w && x == k then 1 else 0)
  {
    var l := |z| - 1;
    var ds, zs := docs[..l], z[..l];
    assert Shaped(ds, zs);
    CorpusSnoc(ds, zs, docs[l] + [t], z[l] + [x], k, w);
    OccurrencesSnoc(z[l], x, k);
    WordOccurrencesSnoc(docs[l], z[l], t, x, k, w);
  }

  // ---------------------------------------------------------------------------
  // Changing the topic of one occurrence

  /** Reassigning position `n` from `zs[n]` to `v` moves one occurrence between the two topics. */
  lemma {:induction false} OccurrencesUpdate(zs: seq<nat>, n: nat, v: nat, k: nat)
    requires n < |zs|
    ensures Occurrences(zs[n := v], k) + (if zs[n] == k then 1 else 0)
         == Occurrences(zs, k) + (if v == k then 1 else 0)
  {
    var l := |zs| - 1;
    assert zs[n := v][..l] == if n == l then zs[..l] else zs[..l][n := v];
    if n < l {
      OccurrencesUpdate(zs[..l], n, v, k);
    }
  }

  lemma {:induction false} WordOccurrencesUpdate(doc: seq<nat>, zs: seq<nat>, n: nat, v: nat, k: nat, t: nat)
    requires |doc| == |zs| && n < |zs|
    ensures WordOccurrences(doc, zs[n := v], k, t) + (if doc[n] == t && zs[n] == k then 1 else 0)
         == WordOccurrences(doc, zs, k, t) + (if doc[n] == t && v == k then 1 else 0)
  {
    var l := |zs| - 1;
    assert zs[n := v][..l] == if n == l then zs[..l] else zs[..l][n := v];
    if n < l {
      WordOccurrencesUpdate(doc[..l], zs[..l], n, v, k, t);
    }
  }

  /** Replacing the assignment of document `m` by `w` swaps its contribution. */
  lemma {:induction false} CorpusOccurrencesUpdate(z: seq<seq<nat>>, m: nat, w: seq<nat>, k: nat)
    requires m < |z|
    ensures CorpusOccurrences(z[m := w], k) + Occurrences(z[m], k)
         == CorpusOccurrences(z, k) + Occurrences(w, k)
  {
    var l := |z| - 1;
    assert z[m := w][..l] == if m == l then z[..l] else z[..l][m := w];
    if m < l {
      CorpusOccurrencesUpdate(z[..l], m, w, k);
    }
  }

  lemma {:induction false} CorpusWordOccurrencesUpdate(docs: seq<seq<nat>>, z: seq<seq<nat>>, m: nat, w: seq<nat>, k: nat, t: nat)
    requires Shaped(docs, z) && m < |z| && |w| == |z[m]|
    ensures Shaped(docs, z[m := w])
    ensures CorpusWordOccurrences(docs, z[m := w], k, t) + WordOccurrences(docs[m], z[m], k, t)
         == CorpusWordOccurrences(docs, z, k, t) + WordOccurrences(docs[m], w, k, t)
  {
    var l := |z| - 1;
    assert z[m := w][..l] == if m == l then z[..l] else z[..l][m := w];
    assert Shaped(docs[..l], z[..l]);
    if m < l {
      CorpusWordOccurrencesUpdate(docs[..l], z[..l], m, w, k, t);
    }
  }

  /** The assignment `z` with occurrence `n` of document `m` moved to topic `v`. */
  function Reassign(z: seq<seq<nat>>, m: nat, n: nat, v: nat): (r: seq<seq<nat>>)
    requires m < |z| && n < |z[m]|
    ensures |r| == |z| && forall i :: 0 <= i < |z| && i != m ==> r[i] == z[i]
    ensures |r[m]| == |z[m]| && r[m][n] == v
    ensures forall j :: 0 <= j < |z[m]| && j != n ==> r[m][j] == z[m][j]
    ensures v == z[m][n] ==> r == z
  {
    var row: seq<nat> := z[m][n := v];
    assert v == z[m][n] ==> row == z[m];
    z[m := row]
  }

  /** Moving occurrence `(m, n)` of the corpus from its topic to `v`. */
  lemma CorpusUpdate(docs: seq<seq<nat>>, z: seq<seq<nat>>, m: nat, n: nat, v: nat, k: nat, t: nat)
    requires Shaped(docs, z) && m < |z| && n < |z[m]|
    ensures Shaped(docs, Reassign(z, m, n, v))
    ensures Occurrences(z[m][n := v], k) + (if z[m][n] == k then 1 else 0)
         == Occurrences(z[m], k) + (if v == k then 1 else 0)
    ensures CorpusOccurrences(Reassign(z, m, n, v), k) + (if z[m][n] == k then 1 else 0)
         == CorpusOccurrences(z, k) + (if v == k then 1 else 0)
    ensures CorpusWordOccurrences(docs, Reassign(z, m, n, v), k, t) + (if docs[m][n] == t && z[m][n] == k then 1 else 0)
         == CorpusWordOccurrences(docs, z, k, t) + (if docs[m][n] == t && v == k then 1 else 0)
  {
    OccurrencesUpdate(z[m], n, v, k);
    WordOccurrencesUpdate(docs[m], z[m], n, v, k, t);
    CorpusOccurrencesUpdate(z, m, z[m][n := v], k);
    CorpusWordOccurrencesUpdate(docs, z, m, z[m][n := v], k, t);
  }

  /** An occurrence is counted under its own topic, in every count that covers it. */
  lemma OccurrenceCounted(docs: seq<seq<nat>>, z: seq<seq<nat>>, m: nat, n: nat)
    requires Shaped(docs, z) && m < |z| && n < |z[m]|
    ensures Occurrences(z[m], z[m][n]) >= 1
    ensures CorpusOccurrences(z, z[m][n]) >= 1
    ensures CorpusWordOccurrences(docs, z, z[m][n], docs[m][n]) >= 1
  {
    CorpusUpdate(docs, z, m, n, z[m][n] + 1, z[m][n], docs[m][n]);
  }

  // ---------------------------------------------------------------------------
  // Conservation: summing a count over all its topics or words

  lemma {:induction false} TopicSumSnoc(zs: seq<nat>, x: nat, j: nat)
    ensures TopicSum(zs + [x], j) == TopicSum(zs, j) + (if x < j then 1 else 0)
  {
    if j > 0 {
      TopicSumSnoc(zs, x, j - 1);
      OccurrencesSnoc(zs, x, j - 1);
    }
  }

  /** The topic counts of one document add up to its length. */
  lemma {:induction false} TopicSumAll(zs: seq<nat>, K: nat)
    requires forall n :: 0 <= n < |zs| ==> zs[n] < K
    ensures TopicSum(zs, K) == |zs|
  {
    if zs == [] {
      TopicSumEmpty(K);
    } else {
      var l := |zs| - 1;
      assert zs == zs[..l] + [zs[l]];
      TopicSumAll(zs[..l], K);
      TopicSumSnoc(zs[..l], zs[l], K);
    }
  }

  lemma {:induction false} TopicSumEmpty(j: nat)
    ensures TopicSum([], j) == 0
  {
    if j > 0 {
      TopicSumEmpty(j - 1);
    }
  }

  lemma {:induction false} CorpusTopicSumSnoc(z: seq<seq<nat>>, w: seq<nat>, j: nat)
    ensures CorpusTopicSum(z + [w], j) == CorpusTopicSum(z, j) + TopicSum(w, j)
  {
    if j > 0 {
      CorpusTopicSumSnoc(z, w, j - 1);
      assert (z + [w])[..|z|] == z;
    }
  }

  lemma {:induction false} CorpusTopicSumEmpty(j: nat)
    ensures CorpusTopicSum([], j) == 0
  {
    if j > 0 {
      CorpusTopicSumEmpty(j - 1);
    }
  }

  /** The topic totals of a corpus add up to its number of occurrences. */
  lemma {:induction false} CorpusTopicSumAll(z: seq<seq<nat>>, K: nat)
    requires TopicsBelow(z, K)
    ensures CorpusTopicSum(z, K) == TotalLength(z)
  {
    if z == [] {
      CorpusTopicSumEmpty(K);
    } else {
      var l := |z| - 1;
      assert z == z[..l] + [z[l]];
      assert TopicsBelow(z[..l], K);
      CorpusTopicSumAll(z[..l], K);
      CorpusTopicSumSnoc(z[..l], z[l], K);
      TopicSumAll(z[l], K);
    }
  }

  lemma {:induction false} WordSumSnoc(doc: seq<nat>, zs: seq<nat>, t: nat, x: nat, k: nat, j: nat)
    requires |doc| == |zs|
    ensures WordSum(doc + [t], zs + [x], k, j) == WordSum(doc, zs, k, j) + (if x == k && t < j then 1 else 0)
  {
    if j > 0 {
      WordSumSnoc(doc, zs, t, x, k, j - 1);
      WordOccurrencesSnoc(doc, zs, t, x, k, j - 1);
    }
  }

  lemma {:induction false} WordSumEmpty(k: nat, j: nat)
    ensures WordSum([], [], k, j) == 0
  {
    if j > 0 {
      WordSumEmpty(k, j - 1);
    }
  }

  /** Summing the word counts of one document for topic `k` over the whole
      vocabulary gives its number of occurrences assigned `k`. */
  lemma {:induction false} WordSumAll(doc: seq<nat>, zs: seq<nat>, k: nat, V: nat)
    requires |doc| == |zs|
    requires forall n :: 0 <= n < |doc| ==> doc[n] < V
    ensures WordSum(doc, zs, k, V) == Occurrences(zs, k)
  {
    if zs == [] {
      WordSumEmpty(k, V);
    } else {
      var l := |zs| - 1;
      assert doc == doc[..l] + [doc[l]];
      assert zs == zs[..l] + [zs[l]];
      WordSumAll(doc[..l], zs[..l], k, V);
      WordSumSnoc(doc[..l], zs[..l], doc[l], zs[l], k, V);
      OccurrencesSnoc(zs[..l], zs[l], k);
    }
  }

  lemma {:induction false} CorpusWordSumSnoc(docs: seq<seq<nat>>, z: seq<seq<nat>>, d: seq<nat>, w: seq<nat>, k: nat, j: nat)
    requires Shaped(docs, z) && |d| == |w|
    ensures Shaped(docs + [d], z + [w])
    ensures CorpusWordSum(docs + [d], z + [w], k, j) == CorpusWordSum(docs, z, k, j) + WordSum(d, w, k, j)
  {
    ShapedSnoc(docs, z, d, w);
    if j > 0 {
      CorpusWordSumSnoc(docs, z, d, w, k, j - 1);
    }
  }

  lemma {:induction false} CorpusWordSumEmpty(k: nat, j: nat)
    ensures CorpusWordSum([], [], k, j) == 0
  {
    if j > 0 {
      CorpusWordSumEmpty(k, j - 1);
    }
  }

  /** Summing the corpus-wide word counts of topic `k` over the vocabulary
      gives the corpus-wide number of occurrences assigned `k`. */
  lemma {:induction false} CorpusWordSumAll(docs: seq<seq<nat>>, z: seq<seq<nat>>, k: nat, V: nat)
    requires Shaped(docs, z) && InVocabulary(docs, V)
    ensures CorpusWordSum(docs, z, k, V) == CorpusOccurrences(z, k)
  {
    if z == [] {
      CorpusWordSumEmpty(k, V);
    } else {
      var l := |z| - 1;
      assert docs == docs[..l] + [docs[l]];
      assert z == z[..l] + [z[l]];
      assert Shaped(docs[..l], z[..l]);
      assert InVocabulary(docs[..l], V);
      CorpusWordSumAll(docs[..l], z[..l], k, V);
      CorpusWordSumSnoc(docs[..l], z[..l], docs[l], z[l], k, V);
      WordSumAll(docs[l], z[l], k, V);
    }
  }

  /** A corpus and an assignment of the same shape have the same size. */
  lemma {:induction false} TotalLengthShaped(docs: seq<seq<nat>>, z: seq<seq<nat>>)
    requires Shaped(docs, z)
    ensures TotalLength(docs) == TotalLength(z)
  {
    if z != [] {
      var l := |z| - 1;
      assert Shaped(docs[..l], z[..l]);
      TotalLengthShaped(docs[..l], z[..l]);
    }
  }

  // ---------------------------------------------------------------------------
  // Independent reference definitions of the counts

  /** `Occurrences` is the multiplicity of `k` in the document's assignment. */
  lemma {:induction false} OccurrencesIsMultiplicity(zs: seq<nat>, k: nat)
    ensures Occurrences(zs, k) == multiset(zs)[k]
  {
    if zs != [] {
      var l := |zs| - 1;
      assert zs == zs[..l] + [zs[l]];
      OccurrencesIsMultiplicity(zs[..l], k);
    }
  }

  /** The (word, topic) pairs of one document, in occurrence order. */
  ghost function Pairs(doc: seq<nat>, zs: seq<nat>): (ps: seq<(nat, nat)>)
    requires |doc| == |zs|
    ensures |ps| == |doc|
    ensures forall n :: 0 <= n < |ps| ==> ps[n] == (doc[n], zs[n])
  {
    seq(|doc|, n requires 0 <= n < |doc| => (doc[n], zs[n]))
  }

  /** The (word, topic) pairs of a corpus, document-major, occurrence-minor. */
  ghost function CorpusPairs(docs: seq<seq<nat>>, z: seq<seq<nat>>): seq<(nat, nat)>
    requires Shaped(docs, z)
  {
    if z == [] then [] else CorpusPairs(docs[..|docs| - 1], z[..|z| - 1]) + Pairs(docs[|docs| - 1], z[|z| - 1])
  }

  /** `WordOccurrences` is the multiplicity of the pair `(t, k)` in the document. */
  lemma {:induction false} WordOccurrencesIsMultiplicity(doc: seq<nat>, zs: seq<nat>, k: nat, t: nat)
    requires |doc| == |zs|
    ensures WordOccurrences(doc, zs, k, t) == multiset(Pairs(doc, zs))[(t, k)]
  {
    if zs != [] {
      var l := |zs| - 1;
      assert Pairs(doc, zs) == Pairs(doc[..l], zs[..l]) + [(doc[l], zs[l])];
      WordOccurrencesIsMultiplicity(doc[..l], zs[..l], k, t);
    }
  }

  /** `CorpusWordOccurrences` is the number of occurrences of word `t` with
      topic `k` among all occurrences of the corpus. */
  lemma {:induction false} CorpusWordOccurrencesIsMultiplicity(docs: seq<seq<nat>>, z: seq<seq<nat>>, k: nat, t: nat)
    requires Shaped(docs, z)
    ensures CorpusWordOccurrences(docs, z, k, t) == multiset(CorpusPairs(docs, z))[(t, k)]
  {
    if z != [] {
      var l := |z| - 1;
      assert Shaped(docs[..l], z[..l]);
      CorpusWordOccurrencesIsMultiplicity(docs[..l], z[..l], k, t);
      WordOccurrencesIsMultiplicity(docs[l], z[l], k, t);
    }
  }

  /** The topics of a corpus assignment, document-major, occurrence-minor. */
  ghost function Flatten(z: seq<seq<nat>>): seq<nat>
  {
    if z == [] then [] else Flatten(z[..|z| - 1]) + z[|z| - 1]
  }

  /** `CorpusOccurrences` is the multiplicity of `k` among all assigned topics. */
  lemma {:induction false} CorpusOccurrencesIsMultiplicity(z: seq<seq<nat>>, k: nat)
    ensures CorpusOccurrences(z, k) == multiset(Flatten(z))[k]
  {
    if z != [] {
      var l := |z| - 1;
      CorpusOccurrencesIsMultiplicity(z[..l], k);
      OccurrencesIsMultiplicity(z[l], k);
    }
  }
}
