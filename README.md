# LDA count state, modelled in Dafny

This project models the bookkeeping core of `lda/lda.py`, a Latent Dirichlet
Allocation trainer that uses collapsed Gibbs sampling. Class `LDA` keeps four
pieces of state:

- `z_m_n`: the topic of every token occurrence;
- `n_m_z`: a document-by-topic count matrix;
- `n_z_t`: a topic-by-word count matrix;
- `n_z`: a per-topic total.

The constructor seeds this state. `inference` then runs one sweep,
retracting and recommitting every occurrence in document-major,
occurrence-minor order.

The model has two files:

- `counts.dfy` (module `Counts`) defines the specification. Pure functions
  count, for a corpus and an assignment, how many occurrences have topic `k`
  in one document, how many have word `t` and topic `k`, and how many have
  topic `k` overall. Lemmas say how these counts change when an occurrence is
  appended or reassigned, what they add up to, and that they equal multiset
  multiplicities.
- `lda.dfy` (module `Lda`) holds class `LDA`. Its three count structures are
  `array2<nat>` / `array<nat>` fields, updated in place. The assignment is a
  `seq<seq<nat>>` field. The object invariant `Valid()` says:
  - every occurrence has a topic in `[0, K)`;
  - the assignment has the corpus's shape;
  - every count equals the number of occurrences it stands for;
  - `N` is the total number of occurrences.

  The constructor establishes `Valid()`, and every `Resample` step,
  `Inference` sweep and `Learning` run keeps it.

Modelling choices:

- **Counts without their offsets.** The source stores each count with its
  smoothing offset added: `alpha`, `beta` and `V * beta` respectively. The
  model stores the natural-number count alone, so "a retract never takes a
  count below its smoothing floor" is the `nat` subtype check on the three
  decrements in `Retract`. `Retractable` is that proof obligation, stated
  directly. The offsets come back in the real-valued weights and
  distributions.
- **Random draws are parameters.** Each `numpy.random.multinomial(...).argmax()`
  and `numpy.random.randint(1, K)` is a parameter: a sequence of draws with
  the corpus's shape. The constructor takes one such sequence, and each
  `Inference` sweep takes another. The contracts hold for every sequence in
  range, so they hold for every run of the sampler.
  - With `alpha, beta > 0`, every conditional weight is positive (`Weight`).
    So under exact arithmetic every topic in `[0, K)` can be drawn. This is
    why "any draw below `K`" describes the sequential initialisation and the
    resampling draw exactly.
  - The stop-word policy pins stop words to topic 0 and draws `[1, K)` for
    every other word.
- **Exact reals for floats.** `worddist`, `theta` and the inner product
  inside `perplexity` become exact rationals (`real`). They are functions
  that read the state and never change it.
- **No input validation.** The source checks none of `K`, `alpha`, `beta`,
  `V` or the token ids. A configuration error at construction would reject
  `K < 1`, non-positive `alpha`/`beta`/`V` and out-of-range tokens. This
  model follows the code, not such a check:
  - the constructor accepts any `alpha` and `beta`. When either is not
    positive, the source's weights can be zero, negative or NaN, and its draw
    then fails or is unspecified. The model still allows every draw below `K`
    (see "## Left out"). `K` and `V` are `nat`, so
    the error `numpy.zeros` raises for a negative dimension (lda/lda.py:18-20)
    is outside the model;
  - token ids are `nat`, and ids `>= V` are excluded by a precondition
    (`InVocabulary`). In the source, an id `>= V` (or `< -V`) raises
    `IndexError`: at lda/lda.py:29 under the stop-word policy, or at the read
    of `self.n_z_t[:, t]` at lda/lda.py:34 under the sequential one. An id
    in `[-V, 0)` raises nothing: numpy's negative indexing silently counts it
    as word `t + V`. The `nat` element type rules such ids out;
  - the real-valued members require `alpha, beta > 0`, because that is what
    makes their divisions well defined.
- **When no draw exists, the precondition cannot be met.** With `K == 0`
  (and at least one token), or with the stop-word policy, `K == 1` and a word
  that is not a stop word, no draw fits. In both cases the source fails
  inside numpy as well.

## Model

| member | source | states |
|---|---|---|
| Lda.StopWordTopics | lda/lda.py:25-26 | The stop-word list comprehension: one topic per token; topic 0 exactly for the stop words; every other token gets its `randint(1, K)` draw; every topic is below `K` |
| Lda.DocumentTopics | lda/lda.py:25-36 | A document's initial topics under either policy: one per token, each below `K`, each the policy's choice for that token and draw |
| Lda.StopWordPolicyNeedsTwoTopics | lda/lda.py:26 | With fewer than two topics, a word that is not a stop word has no fitting draw, so the stop-word policy needs `K >= 2` |
| Lda.LDA.constructor | lda/lda.py:10-40 | Seeds the counts from the corpus. Afterwards `Valid()` holds: shape and range of every assignment, every count equals its multiplicity, `N` is the number of occurrences. Every occurrence holds the topic its policy gives it |
| Lda.LDA.SeedCorpus | lda/lda.py:22-40 | The seeding loop turns zeroed counts and an empty assignment into a valid state holding the policy's topic for every occurrence |
| Lda.LDA.SeedNextDocument | lda/lda.py:23-40 | One iteration of the seeding loop: `N` grows by the document's length, the document's topics (the policy's topic for each token) are appended, and the counts cover one more document |
| Lda.LDA.OpenDocument | lda/lda.py:23 | Starting a new document with no tokens counted leaves every count equal to its multiplicity |
| Lda.LDA.SeedDocument | lda/lda.py:27-39 | Counting a document's tokens one by one leaves the counts equal to the multiplicities of the corpus extended by that document |
| Lda.LDA.Seed | lda/lda.py:28-30 | The three `+= 1` of one seeded occurrence keep every count equal to its multiplicity, with the occurrence appended |
| Lda.LDA.Retractable | lda/lda.py:49-52 | The occurrence being retracted is counted under its topic in all three structures (each count is at least 1), so no decrement goes below its smoothing floor |
| Lda.LDA.Retract | lda/lda.py:49-52 | Each of the three structures loses one at the entry of the old topic (and word), every other entry is unchanged, and the counts are those of every occurrence but the retracted one |
| Lda.LDA.Commit | lda/lda.py:59-62 | From the retracted state, writes the new topic into `z_m_n[m][n]` (nothing else in the assignment changes), adds one at the entries of the new topic, and restores `Valid()` |
| Lda.LDA.Resample | lda/lda.py:49-62 | One resampling step keeps `Valid()` and changes only `z_m_n[m][n]`. The only count entries that change are the old topic's (down one) and the new topic's (up one). If the new topic equals the old, the assignment and all three count structures are unchanged |
| Lda.LDA.Inference | lda/lda.py:42-62 | One sweep in document-major, occurrence-minor order keeps `Valid()` and ends with every occurrence holding its drawn topic |
| Lda.Learning | lda/lda.py:78-82 | Any number of sweeps keeps `Valid()`. The final assignment is the last sweep's draws, or the initial one if there were no sweeps |
| Lda.LDA.DocumentConservation | lda/lda.py:18 | In every valid state, document `m`'s topic counts add up to `len(docs[m])`: `sum_k n_m_z[m, k] == K * alpha + len(docs[m])` |
| Lda.LDA.TopicConsistency | lda/lda.py:19-20 | In every valid state, topic `k`'s word counts add up to its total: `sum_t n_z_t[k, t] == n_z[k]` |
| Lda.LDA.TotalConservation | lda/lda.py:20-24 | In every valid state, the topic totals add up to `N`: `sum_k n_z[k] == K * V * beta + N` |
| Lda.LDA.DocTopicIsMultiplicity | lda/lda.py:18 | In every valid state, `n_m_z[m, k] - alpha` is the multiplicity of topic `k` in `z_m_n[m]` |
| Lda.LDA.TopicWordIsMultiplicity | lda/lda.py:19 | In every valid state, `n_z_t[k, t] - beta` is the multiplicity of the pair (word `t`, topic `k`) among all (token, topic) pairs of the corpus |
| Lda.LDA.TopicTotalIsMultiplicity | lda/lda.py:20 | In every valid state, `n_z[k] - V * beta` is the multiplicity of topic `k` across all assignments, for any corpus and vocabulary |
| Lda.LDA.Weight | lda/lda.py:55 | The unnormalised conditional `n_z_t[k, t] * n_m_z[m, k] / n_z[k]` is strictly positive whenever `alpha, beta > 0` |
| Lda.LDA.WeightSum | lda/lda.py:56 | `p_z.sum()` over a non-empty set of topics is strictly positive, so the normalisation is well defined |
| Lda.LDA.Probability | lda/lda.py:56 | Each entry of `p_z / p_z.sum()` lies in `(0, 1]` |
| Lda.LDA.ProbabilitiesSumToOne | lda/lda.py:56 | `p_z / p_z.sum()` sums to one over the `K` topics |
| Lda.LDA.ProbabilitySumIsRatio | lda/lda.py:56 | A partial sum of the normalised conditional is the partial weight sum divided by the full weight sum |
| Lda.LDA.WeightAtMostSum | lda/lda.py:56 | Each weight is at most the weight sum |
| Lda.SmoothedRatio | lda/lda.py:66 | A count smoothed by `b`, over a total smoothed by `V * b` (the shape of `worddist()` and `theta`), is strictly positive when there is at least one entry and `b > 0` |
| Lda.SmoothedRatioAtMostOne | lda/lda.py:66 | That smoothed ratio is at most one when the count is at most its total |
| Lda.LDA.WordProbability | lda/lda.py:64-66 | Each entry of `worddist()` is strictly positive |
| Lda.LDA.WordProbabilitySumIsRatio | lda/lda.py:66 | A partial row sum of `worddist()` is the partial smoothed word count over the smoothed topic total |
| Lda.LDA.WordDistributionSumsToOne | lda/lda.py:64-66 | In every valid state, each row of `worddist()` sums to one over the vocabulary |
| Lda.LDA.TopicWordAtMostSum | lda/lda.py:19 | Each topic-word count is at most its row's sum |
| Lda.LDA.WordProbabilityAtMostOne | lda/lda.py:66 | In every valid state, no entry of `worddist()` exceeds one |
| Lda.LDA.TopicProbability | lda/lda.py:73 | Each entry of `theta` is strictly positive |
| Lda.LDA.TopicProbabilitySum | lda/lda.py:73 | A non-empty partial sum of `theta` is strictly positive |
| Lda.LDA.TopicProbabilitySumIsRatio | lda/lda.py:73 | A partial sum of `theta` is the partial smoothed document count over `len(doc) + K * alpha` |
| Lda.LDA.DocumentDistributionSumsToOne | lda/lda.py:71-73 | In every valid state, `theta` of each document sums to one over the topics |
| Lda.LDA.WordLikelihood | lda/lda.py:75 | `numpy.inner(phi[:, w], theta)` over a non-empty set of topics is strictly positive |
| Lda.LDA.WordLikelihoodAtMostTopicMass | lda/lda.py:75 | The inner product over the first `j` topics is at most the sum of `theta` over those topics |
| Lda.LDA.LikelihoodInUnitInterval | lda/lda.py:68-76 | For every occurrence, the logarithm's argument in `perplexity` lies in `(0, 1]`: the logarithm is defined, and every term raises `log_per` or leaves it unchanged, so the perplexity is at least one |
| Counts.Reassign | lda/lda.py:59 | `z_n[n] = new_z`: only position `(m, n)` changes, shape is kept, and writing the current topic changes nothing |
| Counts.CorpusUpdate | lda/lda.py:49-62 | Reassigning one occurrence moves exactly one unit of each count, from the old topic to the new one |
| Counts.OccurrenceCounted | lda/lda.py:49-52 | The occurrence at `(m, n)` is counted at least once under its own topic in all three counts |
| Counts.OccurrencesUpdate | lda/lda.py:50 | Reassigning a position of one document moves one unit of the per-document count from the old topic to the new one |
| Counts.WordOccurrencesUpdate | lda/lda.py:51 | Reassigning a position moves one unit of the (word, topic) count from the old topic to the new one |
| Counts.CorpusOccurrencesUpdate | lda/lda.py:52 | Replacing one document's topics changes the corpus count of a topic by that document's difference |
| Counts.CorpusWordOccurrencesUpdate | lda/lda.py:51 | Replacing one document's topics changes the corpus (word, topic) count by that document's difference |
| Counts.OccurrencesSnoc | lda/lda.py:28 | Appending an occurrence adds one to its topic's per-document count and nothing to the others |
| Counts.WordOccurrencesSnoc | lda/lda.py:29 | Appending an occurrence adds one to its (word, topic) count and nothing to the others |
| Counts.CorpusSnoc | lda/lda.py:23-40 | Appending a document adds its own counts to the corpus counts |
| Counts.CorpusExtendLast | lda/lda.py:27-30 | Appending an occurrence to the last document adds one to its topic's and its (word, topic) corpus counts and nothing to the others |
| Counts.TotalLengthSnoc | lda/lda.py:24 | `N += len(doc)` matches the total length of the corpus extended by `doc` |
| Counts.TopicSumAll | lda/lda.py:18 | When all topics are below `K`, a document's per-topic counts add up to its length |
| Counts.CorpusTopicSumAll | lda/lda.py:20 | When all topics are below `K`, the per-topic totals add up to the number of occurrences |
| Counts.WordSumAll | lda/lda.py:19 | When all tokens are below `V`, a document's (word, topic `k`) counts over the vocabulary add up to its count of topic `k` |
| Counts.CorpusWordSumAll | lda/lda.py:19-20 | When all tokens are below `V`, a topic's word counts over the vocabulary add up to its corpus total |
| Counts.TotalLengthShaped | lda/lda.py:22-24 | An assignment with the corpus's shape has as many entries as the corpus has occurrences |
| Counts.OccurrencesIsMultiplicity | lda/lda.py:18 | The recursive per-document count is the multiset multiplicity of the topic |
| Counts.WordOccurrencesIsMultiplicity | lda/lda.py:19 | The recursive (word, topic) count of a document is the multiplicity of the pair among its (token, topic) pairs |
| Counts.CorpusWordOccurrencesIsMultiplicity | lda/lda.py:19 | The corpus (word, topic) count is the multiplicity of the pair among all (token, topic) pairs |
| Counts.CorpusOccurrencesIsMultiplicity | lda/lda.py:20 | The corpus count of a topic is its multiplicity in the flattened assignment |

## Left out

- `main` (lda/lda.py:84-127): argument parsing, the `vocabulary` module, seeding the random generator, and printing top words. This is I/O, and the `vocabulary` module is not part of this model.
- Lda.Learning: the perplexity printing of `lda_learning` is left out. Only its loop of `inference` calls is modelled. Dropping the printing also drops a failure. For a corpus with no tokens (`N == 0`, e.g. `docs == []` or `[[]]`), `log_per / self.N` at lda/lda.py:76 is `0 / 0` and raises `ZeroDivisionError`. That happens at lda/lda.py:80 before the first sweep, or at lda/lda.py:82 when `iteration == 0`. `Learning` finishes normally on such a corpus.
- The `log`, the `exp` and the division by `N` in `perplexity` are not modelled, because they have no exact real counterpart. The model proves the argument of each logarithm lies in `(0, 1]`.
- Floating-point rounding is not modelled. `worddist`, `theta`, the conditional weights and their sums use exact reals.
- The probability distribution of `numpy.random.multinomial` and `numpy.random.randint` is not modelled. Each draw is a parameter, and every draw in range is allowed.
  - Draws come as a sequence fixed before the call rather than one at a time. Any sequence of adaptive choices is one of these sequences, so the contracts cover every run.
- The sequential initialisation's weights `p_z` at lda/lda.py:34 are not computed during seeding. Their draw is a parameter in `[0, K)`. `Weight` states their positivity for any state with the right shape.
- The per-document `numpy.array` objects in `z_m_n` and the row view `n_m_z = self.n_m_z[m]` (lda/lda.py:45-46) are not modelled as aliased objects. The model writes the assignment and the count matrix directly, which has the same effect.
- Lda.LDA.Weight: requires `alpha, beta > 0`, which the source does not check. Without it the source's division can produce a zero or non-finite weight.
- Lda.LDA.constructor: requires token ids in `[0, V)`. In the source, an id `>= V` (or `< -V`) raises `IndexError` at lda/lda.py:29 or 34. An id in `[-V, 0)` is silently counted as word `t + V` through numpy's negative indexing, and the `nat` element type of the corpus excludes it. The model does not capture that wrap-around.
- Lda.LDA.constructor: `K` and `V` are `nat`, so the negative-dimension error of `numpy.zeros` (lda/lda.py:18-20) is not modelled.
- Lda.LDA.constructor: this model has no configuration-error path for `K < 1`, non-positive `alpha`/`beta`/`V` or an empty corpus, because construction in lda/lda.py checks none of them. A corpus without tokens fails only later, in `perplexity` (see the `Lda.Learning` line).
- Lda.LDA.constructor: with `alpha` or `beta` not positive, the weights of the sequential initialisation (lda/lda.py:34) can be zero, negative or NaN. For example, `beta == 0` makes the first token's weights `0 / 0`. The source's draw at lda/lda.py:35 then fails with `ValueError` or returns an unspecified sample. The model still allows every draw below `K` and proves `Valid()`.
- Lda.LDA.Resample: with `alpha` or `beta` not positive, the weights at lda/lda.py:55 can be zero, negative or NaN. For example, `alpha == 0` with a one-token document gives all-zero weights once its occurrence is retracted. The source's draw at lda/lda.py:56 then fails or is unspecified, while `Resample`, `Inference` and `Lda.Learning` still accept every draw below `K`.
