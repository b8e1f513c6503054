/** The count state of a collapsed Gibbs sampler for Latent Dirichlet
    Allocation (class `LDA` of lda/lda.py).

    The source keeps every count with its smoothing offset folded in:
    `n_m_z = alpha + count`, `n_z_t = beta + count`, `n_z = V*beta + count`.
    This model keeps the natural-number counts alone (the stored value minus
    its offset), so "no count falls below its smoothing floor" is exactly
    "every count is a `nat`". The offsets come back only in the real-valued
    weights and distributions at the end of the class.

    Every random draw of the source is a parameter: a sequence of draws of
    the same shape as the corpus, one per occurrence. */
module Lda {
  import opened Counts

  /** How the constructor seeds the assignment: `StopWords` is the source's
      `is_stopword_id` argument, `Sequential` its absence (`None`). */
  datatype InitPolicy =
    | Sequential
    | StopWords(isStopword: nat -> bool)

  /** `d` is a draw the source can make for an occurrence of word `t`: the
      sequential policy draws a topic in `[0, K)`; the stop-word policy pins a
      stop word to topic 0 (which must exist) and draws `randint(1, K)`,
      a topic in `[1, K)`, for any other word. */
  predicate DrawFits(policy: InitPolicy, t: nat, d: nat, K: nat)
  {
    match policy
    case Sequential => d < K
    case StopWords(isStopword) => if isStopword(t) then 0 < K else 1 <= d < K
  }

  /** Every occurrence of `docs` has a fitting draw in `draws`. */
  ghost predicate DrawsFit(policy: InitPolicy, docs: seq<seq<nat>>, draws: seq<seq<nat>>, K: nat)
  {
    Shaped(docs, draws) &&
    forall m, n :: 0 <= m < |docs| && 0 <= n < |docs[m]| ==> DrawFits(policy, docs[m][n], draws[m][n], K)
  }

  /** The topic the constructor gives an occurrence of word `t` whose draw is `d`. */
  function InitialTopic(policy: InitPolicy, t: nat, d: nat): nat
  {
    match policy
    case Sequential => d
    case StopWords(isStopword) => if isStopword(t) then 0 else d
  }

  /** The initial topics of one document under the stop-word policy: topic 0
      for each stop word and the `randint(1, K)` draw for every other word. */
  function StopWordTopics(doc: seq<nat>, isStopword: nat -> bool, draws: seq<nat>, K: nat): (zs: seq<nat>)
    requires |draws| == |doc|
    requires forall n :: 0 <= n < |doc| ==> DrawFits(StopWords(isStopword), doc[n], draws[n], K)
    ensures |zs| == |doc|
    ensures forall n :: 0 <= n < |doc| ==> zs[n] < K
    ensures forall n :: 0 <= n < |doc| ==> (zs[n] == 0 <==> isStopword(doc[n]))
    ensures forall n :: 0 <= n < |doc| && !isStopword(doc[n]) ==> zs[n] == draws[n]
  {
    var zs := seq(|doc|, n requires 0 <= n < |doc| => InitialTopic(StopWords(isStopword), doc[n], draws[n]));
    assert forall n :: 0 <= n < |doc| ==> DrawFits(StopWords(isStopword), doc[n], draws[n], K) ==>
      zs[n] < K && (!isStopword(doc[n]) ==> 1 <= zs[n]);
    zs
  }

  /** The initial topics of one document (`z_n` at lda/lda.py:26 and 32-36):
      the stop-word list, or the sequential draws made one after another from
      the partially built counts. */
  function DocumentTopics(policy: InitPolicy, doc: seq<nat>, draws: seq<nat>, K: nat): (zs: seq<nat>)
    requires |draws| == |doc|
    requires forall n :: 0 <= n < |doc| ==> DrawFits(policy, doc[n], draws[n], K)
    ensures |zs| == |doc|
    ensures forall n :: 0 <= n < |doc| ==> zs[n] < K && zs[n] == InitialTopic(policy, doc[n], draws[n])
  {
    match policy
    case StopWords(isStopword) => StopWordTopics(doc, isStopword, draws, K)
    case Sequential =>
      assert forall n :: 0 <= n < |doc| ==> DrawFits(policy, doc[n], draws[n], K) ==> draws[n] < K;
      draws
  }

  /** With a word that is not a stop word, the stop-word policy has no
      fitting draw unless there are at least two topics. */
  lemma StopWordPolicyNeedsTwoTopics(isStopword: nat -> bool, t: nat, d: nat, K: nat)
    requires !isStopword(t) && K < 2
    ensures !DrawFits(StopWords(isStopword), t, d, K)
  {
  }

  lemma QuotientBounds(a: real, b: real)
    requires 0.0 < a <= b
    ensures 0.0 < a / b <= 1.0
  {
  }

  lemma QuotientSum(a: real, b: real, c: real)
    requires c != 0.0
    ensures a / c + b / c == (a + b) / c
  {
  }

  lemma QuotientSelf(a: real)
    requires a != 0.0
    ensures a / a == 1.0
  {
  }

  /** One step of summing `(c_i + b) / d` over `i < j`, when the sum so far
      is `(s + (j - 1) * b) / d` (or `0` for `j == 1`). */
  lemma RatioStep(prev: real, s: nat, c: nat, j: nat, b: real, d: real)
    requires d != 0.0 && 0 < j
    requires j == 1 ==> prev == 0.0 && s == 0
    requires j > 1 ==> prev == (s as real + Mass(j - 1, b)) / d
    ensures prev + (c as real + b) / d == ((s + c) as real + Mass(j, b)) / d
  {
    assert prev == (s as real + Mass(j - 1, b)) / d;
    QuotientSum(s as real + Mass(j - 1, b), c as real + b, d);
  }

  /** `j * b`, the smoothing mass of `j` entries each offset by `b`, written
      as a sum so that the ratio lemmas stay linear. */
  function Mass(j: nat, b: real): real
  {
    if j == 0 then 0.0 else Mass(j - 1, b) + b
  }

  lemma {:induction false} MassIsProduct(j: nat, b: real)
    ensures Mass(j, b) == j as real * b
  {
    if j > 0 {
      MassIsProduct(j - 1, b);
    }
  }

  /** A count `c` out of a total `n`, both smoothed: `c` by `b`, and `n` by
      `V * b` for its `V` entries. This is the shape of `worddist()` and of
      `theta`. */
  function SmoothedRatio(c: nat, n: nat, V: nat, b: real): (r: real)
    requires 0 < V && b > 0.0
    ensures r > 0.0
  {
    var d := n as real + V as real * b;
    assert d > 0.0 by {
      MassIsProduct(V, b);
      MassNonNegative(V - 1, b);
    }
    (c as real + b) / d
  }

  lemma {:induction false} MassNonNegative(j: nat, b: real)
    requires b >= 0.0
    ensures Mass(j, b) >= 0.0
  {
    if j > 0 {
      MassNonNegative(j - 1, b);
    }
  }

  /** A smoothed count is at most its smoothed total. */
  lemma SmoothedRatioAtMostOne(c: nat, n: nat, V: nat, b: real)
    requires c <= n && 0 < V && b > 0.0
    ensures SmoothedRatio(c, n, V, b) <= 1.0
  {
    assert c as real <= n as real;
    assert (V - 1) as real * b >= 0.0;
    assert b <= V as real * b;
    QuotientBounds(c as real + b, n as real + V as real * b);
  }

  lemma ScaledAtMost(a: real, b: real)
    requires 0.0 < a <= 1.0 && 0.0 < b
    ensures a * b <= b
  {
  }

  class LDA {
    const K: nat
    const alpha: real
    const beta: real
    const docs: seq<seq<nat>>
    const V: nat
    /** Total number of occurrences of the corpus (`self.N`). */
    var N: nat
    /** Topic of every occurrence (`z_m_n`). */
    var assignment: seq<seq<nat>>
    /** Document-topic counts, `|docs|` by `K` (`n_m_z` minus `alpha`). */
    const docTopic: array2<nat>
    /** Topic-word counts, `K` by `V` (`n_z_t` minus `beta`). */
    const topicWord: array2<nat>
    /** Per-topic totals, length `K` (`n_z` minus `V * beta`). */
    const topicTotal: array<nat>

    /** The dimensions of the three count structures. */
    ghost predicate Shape()
    {
      docTopic != topicWord &&
      docTopic.Length0 == |docs| && docTopic.Length1 == K &&
      topicWord.Length0 == K && topicWord.Length1 == V &&
      topicTotal.Length == K &&
      InVocabulary(docs, V)
    }

    /** The counts are exactly those of the occurrences `ds` under the
        assignment `zs`, where `ds` covers the first `|ds|` documents. */
    ghost predicate Counted(ds: seq<seq<nat>>, zs: seq<seq<nat>>)
      reads docTopic, topicWord, topicTotal
    {
      Shape() && Shaped(ds, zs) && |zs| <= |docs| && TopicsBelow(zs, K) &&
      (forall i, k :: 0 <= i < |docs| && 0 <= k < K ==>
         docTopic[i, k] == if i < |zs| then Occurrences(zs[i], k) else 0) &&
      (forall k, t :: 0 <= k < K && 0 <= t < V ==>
         topicWord[k, t] == CorpusWordOccurrences(ds, zs, k, t)) &&
      (forall k :: 0 <= k < K ==> topicTotal[k] == CorpusOccurrences(zs, k))
    }

    /** The object invariant: every occurrence has a topic in `[0, K)` and
        every count is the number of occurrences it stands for. */
    ghost predicate Valid()
      reads this, docTopic, topicWord, topicTotal
    {
      Counted(docs, assignment) && N == TotalLength(docs)
    }

    /** The state between the retract and the commit of occurrence `n` of
        document `m`: the counts are those of every occurrence but that one. */
    ghost predicate Retracted(m: nat, n: nat)
      reads this, docTopic, topicWord, topicTotal
    {
      Shape() && Shaped(docs, assignment) && TopicsBelow(assignment, K) && N == TotalLength(docs) &&
      m < |docs| && n < |docs[m]| &&
      var k0, t0 := assignment[m][n], docs[m][n];
      (forall i, k :: 0 <= i < |docs| && 0 <= k < K ==>
         docTopic[i, k] + (if i == m && k == k0 then 1 else 0) == Occurrences(assignment[i], k)) &&
      (forall k, t :: 0 <= k < K && 0 <= t < V ==>
         topicWord[k, t] + (if k == k0 && t == t0 then 1 else 0) == CorpusWordOccurrences(docs, assignment, k, t)) &&
      (forall k :: 0 <= k < K ==>
         topicTotal[k] + (if k == k0 then 1 else 0) == CorpusOccurrences(assignment, k))
    }

    // -------------------------------------------------------------------------
    // Construction (lda/lda.py:10-40)

    /** Seeds the counts from the corpus, one occurrence at a time, in
        document-major, occurrence-minor order. `draws[m][n]` is the draw the
        source makes for occurrence `n` of document `m`. */
    constructor (K: nat, alpha: real, beta: real, docs: seq<seq<nat>>, V: nat,
                 policy: InitPolicy, draws: seq<seq<nat>>)
      requires InVocabulary(docs, V)
      requires DrawsFit(policy, docs, draws, K)
      ensures this.K == K && this.alpha == alpha && this.beta == beta
      ensures this.docs == docs && this.V == V
      ensures fresh(docTopic) && fresh(topicWord) && fresh(topicTotal)
      ensures Valid()
      ensures forall m, n :: 0 <= m < |docs| && 0 <= n < |docs[m]| ==>
                assignment[m][n] == InitialTopic(policy, docs[m][n], draws[m][n])
    {
      this.K, this.alpha, this.beta, this.docs, this.V := K, alpha, beta, docs, V;
      docTopic := new nat[|docs|, K]((_, _) => 0);
      topicWord := new nat[K, V]((_, _) => 0);
      topicTotal := new nat[K](_ => 0);
      assignment := [];
      N := 0;
      new;
      assert docs[..0] == [];
      SeedCorpus(policy, draws);
    }

    /** The state of the seeding loop before document `m`: the first `m`
        documents are counted, `N` is their total length, and each of their
        occurrences holds the topic its policy gives it. */
    ghost predicate Seeding(policy: InitPolicy, draws: seq<seq<nat>>, m: nat)
      reads this, docTopic, topicWord, topicTotal
    {
      DrawsFit(policy, docs, draws, K) && m <= |docs| &&
      Counted(docs[..m], assignment) && N == TotalLength(docs[..m]) &&
      forall i, n :: 0 <= i < m && 0 <= n < |docs[i]| ==>
        n < |assignment[i]| && assignment[i][n] == InitialTopic(policy, docs[i][n], draws[i][n])
    }

    /** The seeding loop of the constructor (lda/lda.py:22-40), run on the
        freshly zeroed counts. */
    method SeedCorpus(policy: InitPolicy, draws: seq<seq<nat>>)
      requires Seeding(policy, draws, 0)
      modifies this, docTopic, topicWord, topicTotal
      ensures Valid()
      ensures forall m, n :: 0 <= m < |docs| && 0 <= n < |docs[m]| ==>
                assignment[m][n] == InitialTopic(policy, docs[m][n], draws[m][n])
    {
      var m := 0;
      while m < |docs|
        invariant Seeding(policy, draws, m)
      {
        SeedNextDocument(policy, draws, m);
        m := m + 1;
      }
      assert docs[..m] == docs;
    }

    /** One iteration of the seeding loop (lda/lda.py:24-40): counts document
        `m`, the documents before it being counted already. */
    method SeedNextDocument(policy: InitPolicy, draws: seq<seq<nat>>, m: nat)
      requires Seeding(policy, draws, m) && m < |docs|
      modifies this, docTopic, topicWord, topicTotal
      ensures Seeding(policy, draws, m + 1)
      ensures assignment == old(assignment) + [DocumentTopics(policy, docs[m], draws[m], K)]
    {
      var doc := docs[m];
      assert docs[..m + 1] == docs[..m] + [doc];
      TotalLengthSnoc(docs[..m], doc);
      N := N + |doc|;
      var zn := DocumentTopics(policy, doc, draws[m], K);
      SeedDocument(docs[..m], assignment, m, zn);
      assignment := assignment + [zn];
    }

    /** Opening an empty document leaves every count as it was. */
    lemma OpenDocument(ds: seq<seq<nat>>, zs: seq<seq<nat>>)
      requires Counted(ds, zs) && |zs| < |docs|
      ensures Counted(ds + [[]], zs + [[]])
    {
      forall k, t | 0 <= k < K && 0 <= t < V
        ensures topicWord[k, t] == CorpusWordOccurrences(ds + [[]], zs + [[]], k, t)
        ensures topicTotal[k] == CorpusOccurrences(zs + [[]], k)
      {
        CorpusSnoc(ds, zs, [], [], k, t);
      }
      forall k | 0 <= k < K
        ensures topicTotal[k] == CorpusOccurrences(zs + [[]], k)
      {
        CorpusSnoc(ds, zs, [], [], k, 0);
      }
    }

    /** Counts the occurrences of document `m` with the topics `zn`, one
        occurrence at a time (lda/lda.py:27-30 and 33-39). */
    method SeedDocument(ghost ds: seq<seq<nat>>, ghost zs: seq<seq<nat>>, m: nat, zn: seq<nat>)
      requires Counted(ds, zs) && |zs| == m && m < |docs|
      requires |zn| == |docs[m]| && forall n :: 0 <= n < |zn| ==> zn[n] < K
      modifies docTopic, topicWord, topicTotal
      ensures Counted(ds + [docs[m]], zs + [zn])
    {
      var doc := docs[m];
      OpenDocument(ds, zs);
      var n := 0;
      while n < |doc|
        invariant n <= |doc|
        invariant Counted(ds + [doc[..n]], zs + [zn[..n]])
      {
        assert doc[..n + 1] == doc[..n] + [doc[n]];
        assert zn[..n + 1] == zn[..n] + [zn[n]];
        ShapedSnoc(ds, zs, doc[..n], zn[..n]);
        Seed(ds + [doc[..n]], zs + [zn[..n]], m, doc[n], zn[n]);
        n := n + 1;
      }
      assert doc[..n] == doc && zn[..n] == zn;
    }

    /** Counts one more occurrence, of word `t` with topic `z`, at the end of
        the last document of `zs` (lda/lda.py:28-30 and 37-39). */
    method Seed(ghost ds: seq<seq<nat>>, ghost zs: seq<seq<nat>>, m: nat, t: nat, z: nat)
      requires Counted(ds, zs) && |zs| == m + 1 && t < V && z < K
      modifies docTopic, topicWord, topicTotal
      ensures Counted(ds[..|ds| - 1] + [ds[|ds| - 1] + [t]], zs[..|zs| - 1] + [zs[|zs| - 1] + [z]])
    {
      docTopic[m, z] := docTopic[m, z] + 1;
      topicWord[z, t] := topicWord[z, t] + 1;
      topicTotal[z] := topicTotal[z] + 1;
      ghost var ds', zs' := ds[..m] + [ds[m] + [t]], zs[..m] + [zs[m] + [z]];
      forall i, k | 0 <= i < |docs| && 0 <= k < K
        ensures docTopic[i, k] == if i < |zs'| then Occurrences(zs'[i], k) else 0
      {
        if i == m {
          OccurrencesSnoc(zs[m], z, k);
        }
      }
      forall k, w | 0 <= k < K && 0 <= w < V
        ensures topicWord[k, w] == CorpusWordOccurrences(ds', zs', k, w)
      {
        CorpusExtendLast(ds, zs, t, z, k, w);
      }
      forall k | 0 <= k < K
        ensures topicTotal[k] == CorpusOccurrences(zs', k)
      {
        CorpusExtendLast(ds, zs, t, z, k, 0);
      }
    }

    // -------------------------------------------------------------------------
    // One resampling step (lda/lda.py:49-62)

    /** The occurrence about to be retracted is counted under its topic, so
        every decrement of `Retract` keeps its count at or above its floor. */
    lemma Retractable(m: nat, n: nat)
      requires Valid() && m < |docs| && n < |docs[m]|
      ensures docTopic[m, assignment[m][n]] >= 1
      ensures topicWord[assignment[m][n], docs[m][n]] >= 1
      ensures topicTotal[assignment[m][n]] >= 1
    {
      OccurrenceCounted(docs, assignment, m, n);
    }

    /** Removes occurrence `n` of document `m` from the counts of its topic
        (lda/lda.py:49-52). */
    method Retract(m: nat, n: nat)
      requires Valid() && m < |docs| && n < |docs[m]|
      modifies docTopic, topicWord, topicTotal
      ensures Retracted(m, n)
      ensures var z, t := assignment[m][n], docs[m][n];
        (forall i, k :: 0 <= i < |docs| && 0 <= k < K ==>
           docTopic[i, k] + (if i == m && k == z then 1 else 0) == old(docTopic[i, k])) &&
        (forall k, w :: 0 <= k < K && 0 <= w < V ==>
           topicWord[k, w] + (if k == z && w == t then 1 else 0) == old(topicWord[k, w])) &&
        (forall k :: 0 <= k < K ==>
           topicTotal[k] + (if k == z then 1 else 0) == old(topicTotal[k]))
    {
      var z, t := assignment[m][n], docs[m][n];
      Retractable(m, n);
      docTopic[m, z] := docTopic[m, z] - 1;
      topicWord[z, t] := topicWord[z, t] - 1;
      topicTotal[z] := topicTotal[z] - 1;
    }

    /** Gives occurrence `n` of document `m` the topic `z` and counts it there
        (lda/lda.py:59-62). */
    method Commit(m: nat, n: nat, z: nat)
      requires Retracted(m, n) && z < K
      modifies this, docTopic, topicWord, topicTotal
      ensures Valid()
      ensures assignment == Reassign(old(assignment), m, n, z)
      ensures var t := docs[m][n];
        (forall i, k :: 0 <= i < |docs| && 0 <= k < K ==>
           docTopic[i, k] == old(docTopic[i, k]) + (if i == m && k == z then 1 else 0)) &&
        (forall k, w :: 0 <= k < K && 0 <= w < V ==>
           topicWord[k, w] == old(topicWord[k, w]) + (if k == z && w == t then 1 else 0)) &&
        (forall k :: 0 <= k < K ==>
           topicTotal[k] == old(topicTotal[k]) + (if k == z then 1 else 0))
    {
      var t := docs[m][n];
      ghost var before := assignment;
      assignment := Reassign(assignment, m, n, z);
      docTopic[m, z] := docTopic[m, z] + 1;
      topicWord[z, t] := topicWord[z, t] + 1;
      topicTotal[z] := topicTotal[z] + 1;
      forall i, k | 0 <= i < |docs| && 0 <= k < K
        ensures docTopic[i, k] == Occurrences(assignment[i], k)
      {
        if i == m {
          CorpusUpdate(docs, before, m, n, z, k, t);
        }
      }
      forall k, w | 0 <= k < K && 0 <= w < V
        ensures topicWord[k, w] == CorpusWordOccurrences(docs, assignment, k, w)
      {
        CorpusUpdate(docs, before, m, n, z, k, w);
      }
      forall k | 0 <= k < K
        ensures topicTotal[k] == CorpusOccurrences(assignment, k)
      {
        CorpusUpdate(docs, before, m, n, z, k, 0);
      }
    }

    /** Resamples occurrence `n` of document `m`: retracts it, draws `z` (the
        source's `multinomial(...).argmax()`), commits it under `z`. Only that
        occurrence's topic changes; only topic `old z` loses one count and
        only topic `z` gains one, so a redraw of the same topic changes nothing. */
    method Resample(m: nat, n: nat, z: nat)
      requires Valid() && m < |docs| && n < |docs[m]| && z < K
      modifies this, docTopic, topicWord, topicTotal
      ensures Valid()
      ensures assignment == Reassign(old(assignment), m, n, z)
      ensures var z0, t := old(assignment[m][n]), docs[m][n];
        (forall i, k :: 0 <= i < |docs| && 0 <= k < K ==>
           docTopic[i, k] + (if i == m && k == z0 then 1 else 0)
             == old(docTopic[i, k]) + (if i == m && k == z then 1 else 0)) &&
        (forall k, w :: 0 <= k < K && 0 <= w < V ==>
           topicWord[k, w] + (if k == z0 && w == t then 1 else 0)
             == old(topicWord[k, w]) + (if k == z && w == t then 1 else 0)) &&
        (forall k :: 0 <= k < K ==>
           topicTotal[k] + (if k == z0 then 1 else 0) == old(topicTotal[k]) + (if k == z then 1 else 0))
      ensures z == old(assignment[m][n]) ==> assignment == old(assignment)
      ensures z == old(assignment[m][n]) ==>
        (forall i, k :: 0 <= i < |docs| && 0 <= k < K ==> docTopic[i, k] == old(docTopic[i, k])) &&
        (forall k, w :: 0 <= k < K && 0 <= w < V ==> topicWord[k, w] == old(topicWord[k, w])) &&
        (forall k :: 0 <= k < K ==> topicTotal[k] == old(topicTotal[k]))
    {
      Retract(m, n);
      Commit(m, n, z);
      assert z == old(assignment[m][n]) ==> Reassign(old(assignment), m, n, z) == old(assignment);
    }

    // -------------------------------------------------------------------------
    // One sweep (lda/lda.py:42-62) and the training loop (lda/lda.py:78-82)

    /** The draws of one sweep: one topic in `[0, K)` per occurrence. */
    ghost predicate SweepDraws(draws: seq<seq<nat>>)
    {
      Shaped(docs, draws) && TopicsBelow(draws, K)
    }

    /** One sweep of collapsed Gibbs sampling over every occurrence, in
        document-major, occurrence-minor order; `draws[m][n]` is the topic drawn
        for occurrence `n` of document `m`. Afterwards every occurrence holds
        the topic drawn for it and the counts are exactly its counts. */
    method Inference(draws: seq<seq<nat>>)
      requires Valid() && SweepDraws(draws)
      modifies this, docTopic, topicWord, topicTotal
      ensures Valid()
      ensures assignment == draws
    {
      var m := 0;
      while m < |docs|
        invariant m <= |docs| && Valid()
        invariant forall i :: 0 <= i < m ==> assignment[i] == draws[i]
      {
        var doc := docs[m];
        var n := 0;
        while n < |doc|
          invariant n <= |doc| && Valid()
          invariant forall i :: 0 <= i < m ==> assignment[i] == draws[i]
          invariant forall j :: 0 <= j < n ==> assignment[m][j] == draws[m][j]
        {
          Resample(m, n, draws[m][n]);
          n := n + 1;
        }
        assert assignment[m] == draws[m];
        m := m + 1;
      }
      assert assignment == draws;
    }

    // -------------------------------------------------------------------------
    // Conservation of the counts

    /** `sum_k n_m_z[m, k]` over the topics `k < j`, without the offsets. */
    ghost function DocTopicSum(m: nat, j: nat): nat
      reads docTopic
      requires m < docTopic.Length0 && j <= docTopic.Length1
    {
      if j == 0 then 0 else DocTopicSum(m, j - 1) + docTopic[m, j - 1]
    }

    /** `sum_t n_z_t[k, t]` over the words `t < j`, without the offsets. */
    ghost function TopicWordSum(k: nat, j: nat): nat
      reads topicWord
      requires k < topicWord.Length0 && j <= topicWord.Length1
    {
      if j == 0 then 0 else TopicWordSum(k, j - 1) + topicWord[k, j - 1]
    }

    /** `sum_k n_z[k]` over the topics `k < j`, without the offsets. */
    ghost function TopicTotalSum(j: nat): nat
      reads topicTotal
      requires j <= topicTotal.Length
    {
      if j == 0 then 0 else TopicTotalSum(j - 1) + topicTotal[j - 1]
    }

    lemma {:induction false} DocTopicSumCounts(m: nat, j: nat)
      requires Valid() && m < |docs| && j <= K
      ensures DocTopicSum(m, j) == TopicSum(assignment[m], j)
    {
      if j > 0 {
        DocTopicSumCounts(m, j - 1);
      }
    }

    /** Each document's topic counts add up to its length:
        `sum_k n_m_z[m, k] == K * alpha + len(docs[m])`. */
    lemma DocumentConservation(m: nat)
      requires Valid() && m < |docs|
      ensures DocTopicSum(m, K) == |docs[m]|
    {
      DocTopicSumCounts(m, K);
      TopicSumAll(assignment[m], K);
    }

    lemma {:induction false} TopicWordSumCounts(k: nat, j: nat)
      requires Valid() && k < K && j <= V
      ensures TopicWordSum(k, j) == CorpusWordSum(docs, assignment, k, j)
    {
      if j > 0 {
        TopicWordSumCounts(k, j - 1);
      }
    }

    /** Each topic's word counts add up to its total:
        `sum_t n_z_t[k, t] == n_z[k]` (both carry `V * beta`). */
    lemma TopicConsistency(k: nat)
      requires Valid() && k < K
      ensures TopicWordSum(k, V) == topicTotal[k]
    {
      TopicWordSumCounts(k, V);
      CorpusWordSumAll(docs, assignment, k, V);
    }

    lemma {:induction false} TopicTotalSumCounts(j: nat)
      requires Valid() && j <= K
      ensures TopicTotalSum(j) == CorpusTopicSum(assignment, j)
    {
      if j > 0 {
        TopicTotalSumCounts(j - 1);
      }
    }

    /** The topic totals add up to the number of occurrences:
        `sum_k n_z[k] == K * V * beta + N`. */
    lemma TotalConservation()
      requires Valid()
      ensures TopicTotalSum(K) == N
    {
      TopicTotalSumCounts(K);
      CorpusTopicSumAll(assignment, K);
      TotalLengthShaped(docs, assignment);
    }

    /** `n_m_z[m, k] - alpha` is the number of occurrences of document `m`
        with topic `k`. */
    lemma DocTopicIsMultiplicity(m: nat, k: nat)
      requires Valid() && m < |docs| && k < K
      ensures docTopic[m, k] == multiset(assignment[m])[k]
    {
      OccurrencesIsMultiplicity(assignment[m], k);
    }

    /** `n_z_t[k, t] - beta` is the number of occurrences of word `t` with
        topic `k`, across the corpus. */
    lemma TopicWordIsMultiplicity(k: nat, t: nat)
      requires Valid() && k < K && t < V
      ensures topicWord[k, t] == multiset(CorpusPairs(docs, assignment))[(t, k)]
    {
      CorpusWordOccurrencesIsMultiplicity(docs, assignment, k, t);
    }

    /** `n_z[k] - V * beta` is the number of occurrences with topic `k`,
        across the corpus. */
    lemma TopicTotalIsMultiplicity(k: nat)
      requires Valid() && k < K
      ensures topicTotal[k] == multiset(Flatten(assignment))[k]
    {
      CorpusOccurrencesIsMultiplicity(assignment, k);
    }

    // -------------------------------------------------------------------------
    // Read-only consumers of the state, with the smoothing offsets restored.
    // Exact rational arithmetic stands for the source's floating point.

    /** The unnormalised conditional weight of topic `k` for an occurrence of
        word `t` in document `m` (`p_z[k]` at lda/lda.py:34 and 55). */
    function Weight(m: nat, t: nat, k: nat): (w: real)
      reads docTopic, topicWord, topicTotal
      requires Shape() && m < |docs| && t < V && k < K
      requires alpha > 0.0 && beta > 0.0
      ensures w > 0.0
    {
      var a := topicWord[k, t] as real + beta;
      var b := docTopic[m, k] as real + alpha;
      var c := topicTotal[k] as real + V as real * beta;
      assert a * b > 0.0;
      a * b / c
    }

    /** `p_z.sum()` over the topics `k < j`. */
    function WeightSum(m: nat, t: nat, j: nat): (s: real)
      reads docTopic, topicWord, topicTotal
      requires Shape() && m < |docs| && t < V && j <= K
      requires alpha > 0.0 && beta > 0.0
      ensures j == 0 ==> s == 0.0
      ensures j > 0 ==> s > 0.0
    {
      if j == 0 then 0.0 else WeightSum(m, t, j - 1) + Weight(m, t, j - 1)
    }

    /** The normalised conditional `p_z / p_z.sum()` at topic `k`. */
    function Probability(m: nat, t: nat, k: nat): (p: real)
      reads docTopic, topicWord, topicTotal
      requires Shape() && m < |docs| && t < V && k < K
      requires alpha > 0.0 && beta > 0.0
      ensures 0.0 < p <= 1.0
    {
      WeightAtMostSum(m, t, k, K);
      QuotientBounds(Weight(m, t, k), WeightSum(m, t, K));
      Weight(m, t, k) / WeightSum(m, t, K)
    }

    lemma {:induction false} WeightAtMostSum(m: nat, t: nat, k: nat, j: nat)
      requires Shape() && m < |docs| && t < V && k < j <= K
      requires alpha > 0.0 && beta > 0.0
      ensures Weight(m, t, k) <= WeightSum(m, t, j)
    {
      if k < j - 1 {
        WeightAtMostSum(m, t, k, j - 1);
      }
    }

    /** Sum over the topics `k < j` of `Probability(m, t, k)`. */
    ghost function ProbabilitySum(m: nat, t: nat, j: nat): real
      reads docTopic, topicWord, topicTotal
      requires Shape() && m < |docs| && t < V && j <= K
      requires alpha > 0.0 && beta > 0.0
    {
      if j == 0 then 0.0 else ProbabilitySum(m, t, j - 1) + Probability(m, t, j - 1)
    }

    lemma {:induction false} ProbabilitySumIsRatio(m: nat, t: nat, j: nat)
      requires Shape() && m < |docs| && t < V && 0 < K && j <= K
      requires alpha > 0.0 && beta > 0.0
      ensures ProbabilitySum(m, t, j) == WeightSum(m, t, j) / WeightSum(m, t, K)
    {
      if j > 0 {
        ProbabilitySumIsRatio(m, t, j - 1);
        var s := WeightSum(m, t, K);
        QuotientSum(WeightSum(m, t, j - 1), Weight(m, t, j - 1), s);
      }
    }

    /** When there is at least one topic, the normalised conditional is a
        probability distribution over the `K` topics. */
    lemma ProbabilitiesSumToOne(m: nat, t: nat)
      requires Shape() && m < |docs| && t < V && 0 < K
      requires alpha > 0.0 && beta > 0.0
      ensures ProbabilitySum(m, t, K) == 1.0
    {
      ProbabilitySumIsRatio(m, t, K);
      QuotientSelf(WeightSum(m, t, K));
    }

    /** `worddist()[k, t]` (lda/lda.py:64-66): `n_z_t[k, t] / n_z[k]`, the
        probability of word `t` under topic `k`. */
    function WordProbability(k: nat, t: nat): (p: real)
      reads topicWord, topicTotal
      requires Shape() && k < K && t < V && beta > 0.0
      ensures p > 0.0
    {
      SmoothedRatio(topicWord[k, t], topicTotal[k], V, beta)
    }

    /** `worddist()[k].sum()` over the words `t < j`. */
    ghost function WordProbabilitySum(k: nat, j: nat): real
      reads topicWord, topicTotal
      requires Shape() && k < K && j <= V && beta > 0.0
    {
      if j == 0 then 0.0 else WordProbabilitySum(k, j - 1) + WordProbability(k, j - 1)
    }

    lemma {:induction false} WordProbabilitySumIsRatio(k: nat, j: nat)
      requires Shape() && k < K && 0 < j <= V && beta > 0.0
      ensures WordProbabilitySum(k, j)
           == (TopicWordSum(k, j) as real + Mass(j, beta)) / (topicTotal[k] as real + V as real * beta)
    {
      var d := topicTotal[k] as real + V as real * beta;
      var prev, s, c := WordProbabilitySum(k, j - 1), TopicWordSum(k, j - 1), topicWord[k, j - 1];
      if j > 1 {
        WordProbabilitySumIsRatio(k, j - 1);
      }
      assert WordProbabilitySum(k, j) == prev + (c as real + beta) / d;
      assert TopicWordSum(k, j) == s + c;
      RatioStep(prev, s, c, j, beta, d);
    }

    /** Every row of `worddist()` is a probability distribution over the vocabulary. */
    lemma WordDistributionSumsToOne(k: nat)
      requires Valid() && k < K && 0 < V && beta > 0.0
      ensures WordProbabilitySum(k, V) == 1.0
    {
      WordProbabilitySumIsRatio(k, V);
      MassIsProduct(V, beta);
      assert TopicWordSum(k, V) == topicTotal[k] by {
        TopicConsistency(k);
      }
      QuotientSelf(topicTotal[k] as real + V as real * beta);
    }

    lemma {:induction false} TopicWordAtMostSum(k: nat, t: nat, j: nat)
      requires Shape() && k < K && t < j <= V
      ensures topicWord[k, t] <= TopicWordSum(k, j)
    {
      if t < j - 1 {
        TopicWordAtMostSum(k, t, j - 1);
      }
    }

    /** No entry of `worddist()` exceeds one. */
    lemma WordProbabilityAtMostOne(k: nat, t: nat)
      requires Valid() && k < K && t < V && beta > 0.0
      ensures WordProbability(k, t) <= 1.0
    {
      assert topicWord[k, t] <= topicTotal[k] by {
        TopicWordAtMostSum(k, t, V);
        TopicConsistency(k);
      }
      SmoothedRatioAtMostOne(topicWord[k, t], topicTotal[k], V, beta);
    }

    /** `theta[k]` of document `m` (lda/lda.py:73):
        `n_m_z[m, k] / (len(doc) + K * alpha)`. */
    function TopicProbability(m: nat, k: nat): (p: real)
      reads docTopic
      requires Shape() && m < |docs| && k < K && alpha > 0.0
      ensures p > 0.0
    {
      SmoothedRatio(docTopic[m, k], |docs[m]|, K, alpha)
    }

    /** `theta.sum()` over the topics `k < j`. */
    ghost function TopicProbabilitySum(m: nat, j: nat): (s: real)
      reads docTopic
      requires Shape() && m < |docs| && j <= K && alpha > 0.0
      ensures j > 0 ==> s > 0.0
    {
      if j == 0 then 0.0 else TopicProbabilitySum(m, j - 1) + TopicProbability(m, j - 1)
    }

    lemma {:induction false} TopicProbabilitySumIsRatio(m: nat, j: nat)
      requires Shape() && m < |docs| && 0 < j <= K && alpha > 0.0
      ensures TopicProbabilitySum(m, j)
           == (DocTopicSum(m, j) as real + Mass(j, alpha)) / (|docs[m]| as real + K as real * alpha)
    {
      var d := |docs[m]| as real + K as real * alpha;
      var prev, s, c := TopicProbabilitySum(m, j - 1), DocTopicSum(m, j - 1), docTopic[m, j - 1];
      if j > 1 {
        TopicProbabilitySumIsRatio(m, j - 1);
      }
      assert TopicProbabilitySum(m, j) == prev + (c as real + alpha) / d;
      assert DocTopicSum(m, j) == s + c;
      RatioStep(prev, s, c, j, alpha, d);
    }

    /** `theta` is a probability distribution over the topics. */
    lemma DocumentDistributionSumsToOne(m: nat)
      requires Valid() && m < |docs| && 0 < K && alpha > 0.0
      ensures TopicProbabilitySum(m, K) == 1.0
    {
      TopicProbabilitySumIsRatio(m, K);
      MassIsProduct(K, alpha);
      DocumentConservation(m);
      QuotientSelf(|docs[m]| as real + K as real * alpha);
    }

    /** `numpy.inner(phi[:, w], theta)` over the topics `k < j` (lda/lda.py:75):
        the probability of word `w` in document `m`, whose logarithm the
        perplexity accumulates. */
    function WordLikelihood(m: nat, w: nat, j: nat): (p: real)
      reads docTopic, topicWord, topicTotal
      requires Shape() && m < |docs| && w < V && j <= K
      requires alpha > 0.0 && beta > 0.0
      ensures j > 0 ==> p > 0.0
    {
      if j == 0 then 0.0
      else
        var q := WordProbability(j - 1, w) * TopicProbability(m, j - 1);
        assert q > 0.0;
        WordLikelihood(m, w, j - 1) + q
    }

    lemma {:induction false} WordLikelihoodAtMostTopicMass(m: nat, w: nat, j: nat)
      requires Valid() && m < |docs| && w < V && j <= K
      requires alpha > 0.0 && beta > 0.0
      ensures WordLikelihood(m, w, j) <= TopicProbabilitySum(m, j)
    {
      if j > 0 {
        WordLikelihoodAtMostTopicMass(m, w, j - 1);
        WordProbabilityAtMostOne(j - 1, w);
        ScaledAtMost(WordProbability(j - 1, w), TopicProbability(m, j - 1));
      }
    }

    /** For every occurrence, the argument of the logarithm in the perplexity
        lies in `(0, 1]`: the logarithm is defined and every term subtracted
        from `log_per` is a non-positive number, so the perplexity is at least one. */
    lemma LikelihoodInUnitInterval(m: nat, n: nat)
      requires Valid() && m < |docs| && n < |docs[m]|
      requires alpha > 0.0 && beta > 0.0
      ensures 0.0 < WordLikelihood(m, docs[m][n], K) <= 1.0
    {
      OccurrenceCounted(docs, assignment, m, n);
      WordLikelihoodAtMostTopicMass(m, docs[m][n], K);
      DocumentDistributionSumsToOne(m);
    }
  }

  /** The training driver `lda_learning` (lda/lda.py:78-82) without its
      printing: one sweep per entry of `sweeps`, so `iteration == |sweeps|`.
      The invariant survives any number of sweeps, and the final assignment
      is the one drawn in the last sweep. */
  method Learning(lda: LDA, sweeps: seq<seq<seq<nat>>>)
    requires lda.Valid()
    requires forall i :: 0 <= i < |sweeps| ==> lda.SweepDraws(sweeps[i])
    modifies lda, lda.docTopic, lda.topicWord, lda.topicTotal
    ensures lda.Valid()
    ensures lda.assignment == if sweeps == [] then old(lda.assignment) else sweeps[|sweeps| - 1]
  {
    var i := 0;
    while i < |sweeps|
      invariant i <= |sweeps| && lda.Valid()
      invariant lda.assignment == if i == 0 then old(lda.assignment) else sweeps[i - 1]
    {
      lda.Inference(sweeps[i]);
      i := i + 1;
    }
  }
}
