# GHRS feature extraction for MovieLens 100K, modelled in Dafny

This project models the feature-extraction script `Features100K.py` of the
GHRS recommender, the graph-based hybrid recommender system. The script:

- loads the MovieLens 100K user file;
- one-hot encodes `job` and `gender`;
- bins `age` into six bins and one-hot encodes the bins;
- drops `zip`;
- for each coefficient of a sweep, builds an undirected user graph from
  co-ratings. A `(film, rating)` group lists the users who gave that film
  that rating, in row order. Users `a` and `b` are linked when the groups
  in which `a` is listed before `b` number at least `alpha_coef * 1682`,
  or the groups in which `b` is listed before `a` do. The two orders are
  counted apart: 5 groups of each kind give no link at threshold 8.41;
- writes six graph centralities of every user, each divided by its column
  maximum, as the features of that coefficient.

Modules, one per file:

| file | module | models |
|---|---|---|
| `tables.dfy` | `Tables` | cells, tables, the pandas column operations used (select, drop, insert, assign) |
| `cellorder.dfy` | `CellOrder` | the order `LabelEncoder` sorts values in; its sorted distinct classes |
| `decimal.dfy` | `Decimal` | `str(n)`, used for the indicator names `job1`, `job2`, ... |
| `onehot.dfy` | `OneHot` | `convert_categorical` |
| `agebins.dfy` | `AgeBins` | the `pd.cut` age bins |
| `userload.dfy` | `UserLoad` | the user-table part of `load_data` |
| `corating.dfy` | `CoRating` | the `(MID, rate)` groups, `itertools.combinations`, `Counter` |
| `cograph.dfy` | `CoGraph` | the threshold, the edge list and the `nx.Graph` |
| `normalize.dfy` | `Normalize` | `map`, division by the column maximum, `fillna(0)` |
| `features.dfy` | `Features` | the loop of `train_model` and `X_train` |
| `pipeline.dfy` | `Pipeline` | `load_data` followed by `train_model` |

Design choices:

- Errors the script would raise are results of the `Result` type:
  - a missing column is a KeyError;
  - a column that cannot be sorted is a TypeError;
  - an empty column is a ValueError: `OneHotEncoder` rejects 0 samples
    (`EmptyColumn`);
  - an insert under a taken name is a ValueError;
  - encoding a column when it is the table's only column is an IndexError:
    after the drop, `insert(loc=1)` points past the last column
    (`InsertOutOfBounds`);
  - a string age is a TypeError.
- Numbers are reals. NaN is `Missing` in a table and `None` in a metric column.
- `LabelEncoder` and `OneHotEncoder(sparse=False)` are modelled as in
  scikit-learn 0.24 to 1.3. The `sparse` argument is gone from 1.4 on.
  In these versions a column of numbers, or of strings, may also hold NaN.
  NaN becomes one class, sorted after every other value. Only a column
  that mixes numbers and strings is a TypeError.
- `df.insert(loc=j + 1, ...)` puts the indicators right after the first
  column of the table, not where the encoded column was.
- `Counter` counts ordered pairs `(a, b)` in row order, so `(a, b)` and
  `(b, a)` are counted apart.
- An age outside `(0, 100]` gets a NaN bin, so it gets its own age
  indicator, the last one.
- The networkx centralities are a parameter of the model: a function from
  the graph to six non-negative maps from user to value.
- Statements about users outside the graph assume that every map holds only
  nodes of its graph (`Features.OnNodes`). networkx returns one entry per
  node, so this holds for the six centralities the script uses.

## Model

| member | source | states |
|---|---|---|
| OneHot.ConvertCategoricalSpec | Features100K.py:12-26 | Encoding fails exactly when the column is absent, unsortable or empty, when no other column remains, or when an indicator name is already taken. Otherwise it gives the table described directly: the column dropped, and its indicators inserted after the first remaining column. |
| OneHot.ConvertCategoricalShape | Features100K.py:21-25 | The columns are the first remaining column, then `name1 .. nameN`, then the other remaining columns, where N is the number of distinct values. The encoded name is gone and the row count is kept. |
| OneHot.ConvertCategoricalOneHot | Features100K.py:15-25 | In every row exactly one indicator is 1 and the others are 0. The 1 is in column `name(k+1)`, where k is the number of distinct values smaller than the row's value. |
| OneHot.ConvertCategoricalRoundTrip | Features100K.py:13-25 | The encoder's classes turn the indicator block back into the original value. The cells outside the block are the row without the encoded column. |
| OneHot.ConvertKeepsOthers | Features100K.py:21-25 | Every other column keeps its values under its name. |
| OneHot.KeptCell | Features100K.py:21-25 | Each other column moves to a known position: left of the block if it was the first remaining column, after the block otherwise. Every row keeps its cell there. |
| OneHot.IndicatorColumnNamed | Features100K.py:15-25 | Column `name(j+1)` is 1 in exactly the rows whose value is the j-th sorted class, and 0 in every other row. |
| OneHot.ConvertEncodes | Features100K.py:15-25 | The encoded table holds such an indicator column for every class of the encoded column. |
| OneHot.LabelCodes | Features100K.py:15-16 | Each code indexes the sorted classes at the row's own value. |
| OneHot.LabelCodesMonotone | Features100K.py:15-16 | Codes are ordered exactly as the values are. |
| OneHot.LabelCodesInjective | Features100K.py:15-16 | Two rows share a code exactly when they share a value. |
| OneHot.LabelCodesOnto | Features100K.py:15-20 | Every class index is the code of some row, so no indicator column is all zeros. |
| OneHot.RankIsCount | Features100K.py:15-16 | A row's code equals the number of distinct values below its value. |
| OneHot.IndicatorNamesDistinct | Features100K.py:22-24 | The names `name1 .. nameN` are pairwise different. |
| Decimal.DecInjective | Features100K.py:24 | Different numbers print as different strings. |
| CellOrder.Classes | Features100K.py:15-16 | The classes are strictly sorted and hold exactly the column's values. |
| CellOrder.ClassesCount | Features100K.py:15-16 | There are as many classes as distinct values. |
| CellOrder.NaNLastClass | Features100K.py:15-16 | When the column holds NaN, NaN is the last class. |
| AgeBins.AgeBinSpec | Features100K.py:41-42 | An age gets bin k for `10(k-1) < age <= 10k` with k = 1..5, and bin 6 for `50 < age <= 100`. It gets no bin when `age <= 0` or `age > 100`. |
| AgeBins.BinCells | Features100K.py:41-42 | Binning a column fails exactly when some age is a string. Otherwise each cell is the bin of its age. |
| AgeBins.BinAgesSpec | Features100K.py:41-45 | Binning fails exactly when `age` is absent or holds a string. Otherwise, for a table without a `bin` column, the columns are unchanged, `age` holds the bins, and every column other than `age` is untouched. |
| UserLoad.LoadUsersLayout | Features100K.py:39-47 | A well-formed user file loads. The columns are `UID`, then the age, gender and job indicators in that order, one per distinct value. No row is lost. |
| UserLoad.LoadUsersEmpty | Features100K.py:39 | A user file with no rows fails at the job encoding with the ValueError for 0 samples. |
| UserLoad.LoadUsersCells | Features100K.py:39-47 | The loaded table keeps the file's `UID` column. Each job indicator is 1 exactly for the users with that job, and each gender indicator exactly for the users with that gender. Each age indicator is 1 exactly for the users whose age falls in that bin. |
| CoRating.Group | Features100K.py:57-60 | A group holds exactly the users who gave that film that rating. |
| CoRating.GroupOrder | Features100K.py:57-60 | The group keeps row order: `a` is listed before `b` exactly when a row where `a` gave that film that rating comes before such a row for `b`. |
| CoRating.GroupDistinct | Features100K.py:57-60 | If each user rated each film once, a group repeats no user. |
| CoRating.GroupKeys | Features100K.py:57-59 | The keys visited are each key of the ratings, once. |
| CoRating.Combinations | Features100K.py:60 | The pairs listed are exactly the `(g[i], g[j])` with `i < j`. |
| CoRating.CombinationsPrecedes | Features100K.py:60 | `(a, b)` is listed exactly when `a` comes before `b` in the group. |
| CoRating.CombinationsCount | Features100K.py:60 | A group of n users gives `n(n-1)/2` pairs. |
| CoRating.CombinationsOnce | Features100K.py:60 | In a group without repeats, `(a, b)` is listed once if `a` comes before `b` and not at all otherwise. |
| CoRating.Tally | Features100K.py:62 | The counter's keys are the listed pairs, and each count is that pair's number of occurrences. |
| CoRating.PairCount | Features100K.py:56-62 | If each user rated each film once, the count of `(a, b)` is the number of groups in which `a` precedes `b`. This holds for every order of visiting the groups. |
| CoRating.CoRatedCount | Features100K.py:56-62 | The same count for the order the model visits the groups in. |
| CoRating.CoRatedCountRows | Features100K.py:56-62 | If each user rated each film once, the count of `(a, b)` is the number of `(film, rating)` keys for which a row of `a` comes before a row of `b` in the ratings. |
| CoRating.DifferentRatesNotPaired | Features100K.py:57-60 | Two users who rated a film differently are in no common group of that film. |
| CoGraph.Elements | Features100K.py:66 | `counter.elements()` yields exactly the pairs with a positive count. |
| CoGraph.KeepFrequent | Features100K.py:66-67 | The filter keeps exactly the elements whose count reaches the threshold. |
| CoGraph.EdgeList | Features100K.py:63-67 | The edge list repeats no pair. A pair is in it exactly when its count reaches `alpha_coef * 1682`. |
| CoGraph.BuildGraph | Features100K.py:68-73 | The nodes are the endpoints of the listed pairs. The edges are the pairs, unordered, plus a self-loop on every node. |
| CoGraph.GraphLoops | Features100K.py:70-73 | Every node has a self-loop, and every edge joins one or two nodes of the graph. |
| CoGraph.GraphEdge | Features100K.py:70-73 | Two distinct users are joined exactly when one of the two orders of the pair is listed. |
| CoGraph.CoRatingNodes | Features100K.py:56-73 | A user is a node exactly when the user is in a pair that reaches the threshold. |
| CoGraph.CoRatingEdge | Features100K.py:56-73 | Distinct users are joined exactly when `(a, b)` or `(b, a)` reaches the threshold. |
| CoGraph.CoRatingEdgeGroups | Features100K.py:56-73 | If each user rated each film once, distinct users `a` and `b` are joined exactly when one of two counts reaches the threshold: the groups listing `a` before `b`, or the groups listing `b` before `a`. The two counts are not added. |
| CoGraph.CoRatingMonotone | Features100K.py:63-73 | A higher coefficient gives a subgraph: no new nodes and no new edges. |
| CoGraph.SweepNested | Features100K.py:53-73 | Along the sweep each graph is contained in every earlier one. |
| CoGraph.ThreeRatingsCount | Features100K.py:56-62 | Take two users who rated film 1 with a 5 and a third who rated it 4. Only `(1, 2)` is counted, and it is counted once. |
| CoGraph.ThreeRatingsGraph | Features100K.py:56-73 | In that example the graph is users 1 and 2 joined and looped. User 3, who rated the film differently, is absent. |
| Normalize.MaxPresent | Features100K.py:77 | The maximum is NaN exactly when every value is NaN. Otherwise it bounds every value and is one of them. |
| Normalize.FillCell | Features100K.py:94 | Nothing is NaN afterwards, and numbers are unchanged. |
| Normalize.FeatureRange | Features100K.py:76-94 | Every feature value is a number in `[0, 1]`. |
| Normalize.FeatureAbsent | Features100K.py:76-94 | A user with no entry in the metric gets 0. |
| Normalize.FeatureZeroMax | Features100K.py:76-94 | When every value is 0 or NaN, every feature is 0. |
| Normalize.FeatureQuotient | Features100K.py:76-94 | With a positive maximum, a present value becomes value divided by maximum. |
| Normalize.FeatureScale | Features100K.py:76-94 | With a positive maximum, the feature times the maximum gives back the user's value. |
| Normalize.FeatureMaxIsOne | Features100K.py:76-94 | With a positive maximum, some user holds it, and every user who holds it gets exactly 1. |
| Normalize.FeatureOrder | Features100K.py:76-94 | Normalising keeps the order of the present values. |
| Features.WithNames | Features100K.py:76-91 | Assigning columns by name keeps the existing columns in place, and the result holds exactly the old columns and the assigned names. |
| Features.WithNamesAppended | Features100K.py:76-91 | Every column appended by the assignment is one of the assigned names that was not already present, and distinct columns stay distinct. |
| Features.WithNamesFresh | Features100K.py:76-91 | When no name is taken yet, the names are appended in the order assigned. |
| Features.AddMetricsColumns | Features100K.py:76-91 | After the six assignments, the columns are the user columns followed by the metric names not yet present. |
| Features.AddMetricsValues | Features100K.py:76-92 | Each metric column holds its centrality, normalised over the users of the table. |
| Features.AddMetricsOthers | Features100K.py:76-92 | The six assignments touch no other column. |
| Features.AddMetricsOverwrite | Features100K.py:55-92 | A second pass of the loop replaces every trace of the first. |
| Features.XTrain | Features100K.py:93-94 | The feature table is every column but the first, with no NaN left. |
| Features.XTrainColumn | Features100K.py:93-94 | Each feature column is the user column of the same name with NaN filled by 0. |
| Features.StepsAt | Features100K.py:55 | If a loop body overwrites its previous pass, the state after the i-th pass is one pass from the start. |
| Features.TrainModel | Features100K.py:52-97 | The model fails exactly when there is no `UID` column. Otherwise it gives one feature table per coefficient. |
| Features.TrainModelAt | Features100K.py:55-97 | The i-th feature table is the one the i-th coefficient's graph gives from the loaded users. Earlier passes leave no trace. |
| Features.FeatureTable | Features100K.py:75-94 | The feature table holds the user columns after `UID`, then the metric columns. Each metric column is its centrality normalised and NaN-filled. Every other column is NaN-filled. |
| Features.TrainModelAbsent | Features100K.py:75-94 | When each centrality lists only graph nodes, a user who is not a node of the i-th graph gets 0 in all six metric columns of the i-th table. |
| Pipeline.PipelineAt | Features100K.py:100-104 | For a well-formed user file, every coefficient of the sweep gets a feature table with one row per user. Its columns are exactly the age, gender and job indicators and then the six metric names. Each indicator is 1 exactly for the users with that bin, gender or job. Each metric column is that coefficient's centrality of the file's user, normalised and NaN-filled. |
| Pipeline.PipelineTable | Features100K.py:100-104 | The same table in terms of the loaded users: the metric columns come after the user columns, and every user column but `UID` is carried over NaN-filled. |
| Pipeline.PipelineAbsent | Features100K.py:100-104 | When each centrality lists only graph nodes, a user of the file who is not a node of the i-th graph gets 0 in all six metric columns of the i-th table. |

## Left out

- Reading `ua.base` and `u.user` (`pd.read_csv`) and writing the pickles (`to_pickle`) are left out. The model starts from the tables the reads give, and its result is the feature tables that are written.
- The networkx centralities (PageRank of the directed graph, degree, closeness, betweenness, load and average neighbour degree) are a parameter. Their definitions belong to networkx, not to this script. Any exception networkx might raise is not modelled.
- The edge attribute `weight=1` is not kept. Every edge has the same weight, so only the edge set matters.
- The evaluation tail after `train_model(df, df_user)` is left out. It uses names the script never defines (`test_r`, `res`, `n_m`, `n_u`) and would stop with a NameError.
- The imports of matplotlib and `metrics` are left out, and so is the unused timestamp column of the ratings.
- Floating point is not modelled: values are exact reals, so rounding in the division by the maximum is absent.
- A zero maximum is read as 0/0, which is NaN and becomes 0 after `fillna(0)`. Since values are non-negative, every value of such a column is 0 or NaN.
- `df.groupby` visits its keys in sorted order; the model visits them in order of first appearance. The counts are proved for every order of the distinct keys (`CoRating.PairCount`), so the edge set does not depend on this. Only the order of the edge list differs, and the graph is a set.
- scikit-learn before 0.24 rejects NaN in a column to be label-encoded. That behaviour is not modelled: the model follows 0.24 to 1.3, where NaN is one more class.
- Column dtypes are not modelled. The indicators are the reals 0.0 and 1.0, and the bins are the strings `'1'` .. `'6'`.
- UserLoad.LoadUsersLayout: states the layout only for a user file with at least one row, whose genders and jobs the encoder can sort and whose ages are not strings. Otherwise loading fails, which `OneHot.ConvertCategoricalSpec` and `AgeBins.BinAgesSpec` cover: an empty file is a ValueError (`EmptyColumn`, `OneHotEncoder` rejects 0 samples; `UserLoad.LoadUsersEmpty`), and an unsortable gender or job column or a string age is a TypeError.
