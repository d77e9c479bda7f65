# Covariance and k-nearest-neighbour prediction

A Dafny model of the two numeric routines of the NFL wide-receiver
classifier helpers in `functions/functions.py`:

- `calculate_covariance(one, two)`, the sample covariance of two paired
  feature vectors: centre each vector on its mean, multiply the paired
  deviations, add them up and divide by `n - 1`;
- `knn(features, train_input, test_input, train_output, k)`, which gives
  every training row its Euclidean distance to the query over the listed
  features, keeps the `k` nearest rows with `Series.nsmallest(n=k)` and
  returns `mode()[0]` of their labels.

Numbers are exact reals. A feature vector is a `seq<real>` indexed by
column position, and `features` is the list of positions that take part
(a position listed twice counts twice, as in the source's loop). The
training table is a list of rows with a parallel list of `int` labels.

The modules follow the stages of `knn`:

- `Covariance` (`covariance.dfy`): `Sum`, `Mean`, `Covariance`, and two
  independent reference definitions: the sample variance and the
  computational formula `(Σ a·b − n·ā·b̄)/(n − 1)`.
- `Distance` (`distance.dfy`): the squared distance of one row to the
  query, the list of distances of all rows, and the square-root relation.
- `Selection` (`selection.dfy`): `nsmallest(n=k)` with its default
  `keep='first'`. Rows are ranked by the key (distance, row position),
  and `Nearest` takes the first `Min(k, n)` rows in that order.
  `IsSmallest` is the specification it meets: the right number of rows,
  nearest first, and every selected row ranked ahead of every row left out.
  When `k` is smaller than the number of rows, `keep='first'` decides which
  of several tied rows are kept, and the earlier ones are. When `k` covers
  every row, pandas returns all rows sorted by an unstable sort; the model
  still lists them in its own deterministic order, and only the set of rows
  (and so the prediction) is the source's.
- `Vote` (`vote.dfy`): `Count`, the predicate `IsVote` (no label outnumbers
  the vote, and among equally frequent labels the vote is the smallest), and
  `Mode`, which computes it. `mode()` lists the modes in ascending order and
  `[0]` picks the first, so the smallest label wins a tie.
- `Knn` (`knn.dfy`): `Predict`, which composes the three, and the
  end-to-end properties.

Rows are ranked by the squared distance. The source takes the square root
(`** (1/2)`) before ranking. `Knn.EuclideanSelectsAlike` proves that
ranking by any non-negative roots of the squared distances selects the same
rows, so the root cannot change the prediction.

## Model

| member | source | states |
|---|---|---|
| Covariance.CovarianceSymmetric | functions/functions.py:153-155 | swapping the two vectors leaves the covariance unchanged |
| Covariance.CovarianceOfSelf | functions/functions.py:153-155 | the covariance of a vector with itself equals its sample variance (squared deviations from the mean over `n - 1`) and is never negative |
| Covariance.CovarianceMatchesShortcut | functions/functions.py:153-155 | the centred formula equals the computational formula `(Σ a[i]·b[i] − n·mean(a)·mean(b)) / (n − 1)` on every input with equal lengths and `n ≥ 2` |
| Covariance.WorkedExample | functions/functions.py:142-147 | the covariance of `[1,2,3,4,5]` and `[5,4,3,2,1]` is `-2.5` |
| Distance.SquaredDistanceSign | functions/functions.py:190-192 | the accumulated squared distance is never negative, and it is zero exactly when the row equals the query on every listed feature |
| Distance.Distances | functions/functions.py:190-193 | one distance per training row; each is non-negative, and it is zero if and only if that row agrees with the query on all listed features |
| Distance.RootPreservesOrder | functions/functions.py:193 | non-negative square roots keep both the strict order and the ties of the squared distances |
| Selection.Insert | functions/functions.py:195 | placing a row into a ranked list keeps it ranked, adds exactly that row, and puts it first or leaves the old first row in front |
| Selection.RankPrefix | functions/functions.py:195 | the rows `0 .. n-1`, each exactly once, listed in rank order |
| Selection.Nearest | functions/functions.py:195 | the selection has `min(k, n)` rows, each ranked ahead of every row after it and of every unselected row; so no unselected row is nearer, and among equal distances the earlier row is chosen first |
| Selection.RankedDistinct | functions/functions.py:195 | no row is selected twice |
| Selection.GatherAt | functions/functions.py:195 | indexing the labels by the selected rows yields, at each place, the label of the row selected there |
| Selection.NearestLeads | functions/functions.py:195 | the first selected row is ranked ahead of every other row |
| Selection.NearestStartsWithLeader | functions/functions.py:195 | a row ranked ahead of all others is the first selected, for every `k ≥ 1` |
| Selection.NearestSameRanking | functions/functions.py:193-195 | two distance lists that order every pair of rows alike select the same rows |
| Vote.Count | functions/functions.py:195 | the count of a label agrees with its multiplicity in the multiset of labels |
| Vote.BestOf | functions/functions.py:195 | the result is one of the candidates, and no candidate is more frequent, or equally frequent and smaller |
| Vote.Mode | functions/functions.py:195 | `mode()[0]` is a label of the list that no label outnumbers, and the smallest of the labels that occur equally often |
| Vote.VoteRespectsCounts | functions/functions.py:195 | two label lists with the same count for every label have the same vote |
| Vote.ModeRespectsMultiset | functions/functions.py:195 | reordering the labels never changes `mode()[0]` |
| Knn.Neighbours | functions/functions.py:190-195 | the rows `nsmallest(n=k)` selects meet the smallest-k specification for the per-row distances |
| Knn.Predict | functions/functions.py:160-196 | the prediction is the label of some selected row and the vote over the selected labels; when `k` covers every row, it is the vote over all training labels |
| Knn.InsertCount | functions/functions.py:195 | inserting a row into the ranking adds one vote for its label and changes no other count |
| Knn.RankPrefixCount | functions/functions.py:195 | ranking the first `n` rows keeps the count of every label among them |
| Knn.AllRowsCount | functions/functions.py:195 | when `k ≥ n`, the selected rows carry every label as often as the whole training set |
| Knn.PredictAllRows | functions/functions.py:195 | when `k ≥ n`, the prediction is `Mode` of all labels, whatever the features, the rows and the query |
| Knn.ExactMatchLeads | functions/functions.py:190-195 | the earliest row that matches the query on every listed feature is the first neighbour for every `k ≥ 1` (in the model's order when `k ≥ n`) |
| Knn.ExactMatchSelected | functions/functions.py:190-195 | the earliest row that matches the query on every listed feature is selected for every `k ≥ 1` |
| Knn.EuclideanSelectsAlike | functions/functions.py:193-195 | ranking by the Euclidean distances, the square roots of the squared distances, selects exactly the same rows |
| Knn.Scenario | functions/functions.py:160-196 | rows `1`, `2`, `10` labelled `0`, `0`, `1`, query `1.5`, `k = 2`: the prediction is `0` |

## Left out

- `fetch_data`, `drop_rename_cols` and `concat_df` are not part of this model. They are an HTTP client and thin wrappers over pandas with no logic of their own.
- Floating-point rounding is not modelled. All arithmetic is over exact reals, and the square root is represented by the `IsRoot` relation, not computed.
- The side effect of `knn` is not modelled. It writes a `distance` column into the caller's training frame. `Predict` is a pure function.
- pandas index alignment is not modelled. `train_output` is indexed by the index labels of the selected rows. The model takes rows and labels as parallel lists indexed by position.
- Covariance: requires `|a| == |b| >= 2`. As written, a shorter `two` raises an `IndexError`, while a longer `two` is accepted and its mean is taken over all its entries. With one observation the only deviation is zero and the division is 0/0, which yields NaN; with none, `sum` of the empty generator is `0` and the result is `-0.0`. None of these outcomes is modelled.
- Predict: requires `k ≥ 1` and at least one training row. Otherwise `mode()` returns an empty Series and `[0]` raises. A `k` larger than the number of rows is modelled, because `nsmallest` then returns every row.
- Predict: NaN distances and NaN labels are not modelled. `nsmallest` and `mode()` treat them specially, and exact reals have none.
- Ties in label frequency: `mode()[0]` returns the smallest tied label, not the tied label met first in distance order, and `Vote.Mode` does the same.
- A training row that matches the query exactly is not always selected: when several rows match and `k = 1`, only the earliest is kept. `Knn.ExactMatchSelected` states what holds: the earliest matching row is always selected.
- `knn` and `calculate_covariance` raise no errors of their own. The model states input validity as preconditions.
- Selection.Nearest: for `k ≥ n` the order of tied rows within the selection is the model's own deterministic choice (earlier row first). pandas then sorts with an unstable sort, so only the set of selected rows is promised by the source. The prediction does not depend on that order.
- Knn.ExactMatchLeads: that the earliest matching row is the first neighbour is promised by the source only for `k` smaller than the number of rows. For larger `k` the source promises only that the row is selected, which `Knn.ExactMatchSelected` states.
- The property that permuting the training rows leaves the prediction unchanged when no two distances tie is not modelled. It would require a counting argument over bijections of row positions.
