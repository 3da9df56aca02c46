# Disaster-alert pipeline: fusion rule, text cleaner and sensor features

This project models the three pieces of logic that sit between the raw data
and the final alert of a small disaster-monitoring pipeline, and proves
properties of them in Dafny:

- `fusion.dfy` (module `Fusion`) models `fuse_and_decide`, the rule that joins one
  sensor-window verdict and the verdicts for a list of social-media posts into
  one alert. The decoded JSON replies of the two prediction endpoints are its
  inputs. A field missing from a reply is an `Option` left `None`, which reads
  as the code's default. `FuseAndDecide` is the imperative loop and the two
  `if` rules, proved equal to the specification function `Decide`.
- `preprocess.dfy` (module `Preprocess`) models `clean_text`, which lowercases
  the post and then strips URLs, `@mentions` and `#`. It maps every other
  character outside `[a-z0-9\s]` to a space, collapses runs of whitespace,
  strips the ends, and keeps the tokens that are longer than one character and
  not stopwords. Each regular-expression substitution is a left-to-right
  scanning function. The emoji remover and the stopword set are parameters.
- `sensor_model.dfy` (module `SensorModel`) models the sensor side.
  - `featurize_window` is an imperative loop over the channels `vibration`,
    `flame` and `water`, proved equal to `Features`.
  - The windowing loop of `train_iforest` is a `while` loop over row slices,
    proved to produce one feature map per consecutive chunk of rows.
  - `predict_window` is a function. It uses the given model tuple or the stored
    one, fails with `ModelFileNotFound` when there is neither, reindexes the
    features to the model's column list, and negates the decision score.
- `wrappers.dfy` (module `Wrappers`) holds `Option` and `Result`.
- `sequences.dfy` (module `Sequences`) holds `Sum`, the one sum of a list of
  numbers that both the fusion average and `np.mean` use, and the associativity
  of concatenation.

Two behaviours of the code that the model proves as they are:

- A sensor anomaly is reported alone. The `not final` test
  (orchestrator/orchestrator.py:22) blocks the second rule once the first has
  fired, so `Fusion.Decide` states that the reasons are then exactly
  `["sensor_anomaly"]`, and `fusion_sensor+social` never joins them.
- `clean_text` is not idempotent, because `#` is removed only after URLs are
  stripped. `Preprocess.CleanTextNotIdempotent` proves that `"ht#tpx"` cleans
  to `"httpx"`, and cleaning that again gives `""`.

## Model

| member | source | states |
|---|---|---|
| Fusion.CountAlerts | orchestrator/orchestrator.py:10-15 | the number of alerting posts never exceeds the number of posts |
| Fusion.CountAlertsIsCardinality | orchestrator/orchestrator.py:12-15 | the count is the number of positions whose reply has label 1, where a missing label reads as 0 (the meaning of `IsTweetAlert`) |
| Fusion.CountAlertsMonotone | orchestrator/orchestrator.py:14-15 | turning posts into alerts never lowers the count |
| Fusion.Confidences | orchestrator/orchestrator.py:11-16 | `confidences` has one entry per post, in order, and a missing confidence reads as 0 (the meaning of `Confidence`) |
| Fusion.SumBounds | orchestrator/orchestrator.py:17 | n values in [lo, hi] have a `Sum` between n*lo and n*hi |
| Fusion.AverageConfidence | orchestrator/orchestrator.py:17 | the average is 0 with no posts; otherwise the average times the number of posts is the `Sum` of the confidences |
| Fusion.AverageConfidenceIsProbability | orchestrator/orchestrator.py:17 | when every confidence is in [0, 1], so is the average |
| Fusion.Decide | orchestrator/orchestrator.py:6-24 | a missing `alert` reads as false and a missing `score` as 0.0 (the meaning of `SensorAlert` and `SensorScore`); score and count passed through, count ≤ posts; no sensor alert: alert iff score ≥ 0.6 and count ≥ 2, reasons `[fusion_sensor+social]`; sensor alert: reasons `[sensor_anomaly]`; ≤ 1 reason; alert iff reasons non-empty |
| Fusion.DecideMonotoneCount | orchestrator/orchestrator.py:20-23 | setting the sensor alert, raising the score or raising the number of alerting posts (lists of any lengths) never withdraws an alert |
| Fusion.DecideMonotoneAppend | orchestrator/orchestrator.py:12-23 | adding posts never withdraws an alert |
| Fusion.DecideMonotone | orchestrator/orchestrator.py:20-23 | setting the sensor alert, raising the score or turning posts into alerts position by position never withdraws an alert |
| Fusion.FusionThresholdBoundary | orchestrator/orchestrator.py:22-23 | with two alerting posts, a score of exactly 0.6 fires `fusion_sensor+social`, and 0.59 does not alert |
| Fusion.FuseAndDecide | orchestrator/orchestrator.py:6-24 | the counting loop, the guarded average and the two rules return exactly `Decide` |
| Preprocess.LowerChar | social_ml/src/preprocess.py:14 | an upper-case letter moves down by 32; any other character is kept; the result is never upper-case |
| Preprocess.ToLower | social_ml/src/preprocess.py:14 | length kept, no upper-case letter left, each upper-case letter replaced in place by its lower-case letter (code point + 32), every other character kept in place |
| Preprocess.ToLowerUnchanged | social_ml/src/preprocess.py:14 | text without capitals is unchanged |
| Preprocess.TakeWhile | social_ml/src/preprocess.py:16-17 | the greedy run `\S+` / `\w+`: a prefix, all of whose characters match, and the next character does not |
| Preprocess.TakeWhileRun | social_ml/src/preprocess.py:16-17 | a matching run followed by a stopping character is exactly the run taken |
| Preprocess.StripUrls | social_ml/src/preprocess.py:16 | stripping never lengthens the text |
| Preprocess.UrlIsRemoved | social_ml/src/preprocess.py:16 | at the front of the text, `http` or `www.` followed by non-space characters (the meaning of `StartsUrl`) is deleted up to the next whitespace, and the rest is processed alone |
| Preprocess.StripUrlsAppend | social_ml/src/preprocess.py:16 | cut after whitespace (or at the front), the two parts are stripped independently: no URL runs across the cut |
| Preprocess.StartsUrlBeforeCut | social_ml/src/preprocess.py:16 | whether a URL starts at the front does not depend on the text after a trailing whitespace |
| Preprocess.UrlBeforeCut | social_ml/src/preprocess.py:16 | a URL at the front of a text that ends in whitespace ends before that whitespace |
| Preprocess.UrlAnywhere | social_ml/src/preprocess.py:16 | a URL after whitespace anywhere in the text is deleted up to the next whitespace; the text before and after it is stripped on its own |
| Preprocess.StripUrlsWithoutUrl | social_ml/src/preprocess.py:16 | where no URL starts, the text is unchanged |
| Preprocess.StripUrlsAfterPlainText | social_ml/src/preprocess.py:16 | leading text in which no URL starts is kept as it is, and the URLs after it are still stripped, even with no whitespace between |
| Preprocess.PlainLetterBeforeUrl | social_ml/src/preprocess.py:16 | a leading `x` is kept whatever follows it |
| Preprocess.ExampleUrl | social_ml/src/preprocess.py:16 | `"http://a"` is a URL without whitespace |
| Preprocess.UrlInsideWord | social_ml/src/preprocess.py:16 | a URL glued to the end of a word goes too: `"xhttp://a b"` becomes `"x b"` |
| Preprocess.StripMentions | social_ml/src/preprocess.py:17 | stripping never lengthens the text |
| Preprocess.StripMentionsUnchanged | social_ml/src/preprocess.py:17 | text without `@` is unchanged |
| Preprocess.MentionIsRemoved | social_ml/src/preprocess.py:17 | at the front of the text, `@` followed by word characters (the meaning of `StartsMention`) is deleted with all of them, and the rest is processed alone |
| Preprocess.MentionAt | social_ml/src/preprocess.py:17 | the same, for a text given as its first character `@` and the characters after it |
| Preprocess.StripMentionsAppend | social_ml/src/preprocess.py:17 | cut before a non-word character (or at the end), the two parts are stripped independently: no mention runs across the cut |
| Preprocess.StartsMentionBeforeCut | social_ml/src/preprocess.py:17 | whether a mention starts at the front does not depend on the text after such a cut |
| Preprocess.MentionBeforeCut | social_ml/src/preprocess.py:17 | a mention at the front ends before such a cut |
| Preprocess.MentionAnywhere | social_ml/src/preprocess.py:17 | an `@` anywhere in the text, with every word character after it, is deleted; the text before and after it is stripped on its own |
| Preprocess.RemoveHashes | social_ml/src/preprocess.py:18 | no `#` is left |
| Preprocess.RemoveHashesUnchanged | social_ml/src/preprocess.py:18 | text without `#` is unchanged |
| Preprocess.RemoveHashesAppend | social_ml/src/preprocess.py:18 | removing `#` works piecewise over a concatenation |
| Preprocess.HashtagTextIsKept | social_ml/src/preprocess.py:18 | only the `#` goes; the text on both sides of it is kept |
| Preprocess.MapToAlnum | social_ml/src/preprocess.py:19 | length kept; each character in `[a-z0-9\s]` is kept and every other one becomes a space |
| Preprocess.MapToAlnumUnchanged | social_ml/src/preprocess.py:19 | text over `[a-z0-9\s]` is unchanged |
| Preprocess.Collapse | social_ml/src/preprocess.py:20 | empty iff the input is empty; each character is a space or a non-space of the input; no two spaces in a row; a leading run becomes one space, and so does a trailing run: the result ends in a space exactly when the input ends in whitespace |
| Preprocess.CollapseKeepsTokens | social_ml/src/preprocess.py:20 | collapsing whitespace runs keeps the tokens: `Split(Collapse(s)) == Split(s)` |
| Preprocess.CollapseSpaceFront | social_ml/src/preprocess.py:20-21 | a leading whitespace run and the one space it becomes both leave the tokens of what follows unchanged |
| Preprocess.SplitSkipsSpaces | social_ml/src/preprocess.py:20-21 | leading whitespace does not change the tokens |
| Preprocess.SplitCons | social_ml/src/preprocess.py:20-21 | one more non-space character in front joins the first token, or makes a token of its own before whitespace |
| Preprocess.CollapseUnchanged | social_ml/src/preprocess.py:20 | text without whitespace is unchanged |
| Preprocess.CollapseKeepsAlphabet | social_ml/src/preprocess.py:19-20 | collapsing `[a-z0-9\s]` text stays within `[a-z0-9\s]` |
| Preprocess.StripLeading | social_ml/src/preprocess.py:20 | removes exactly the leading whitespace: a suffix, all removed characters whitespace, and the first one kept is not |
| Preprocess.StripTrailing | social_ml/src/preprocess.py:20 | removes exactly the trailing whitespace: a prefix, all removed characters whitespace, and the last one kept is not |
| Preprocess.Strip | social_ml/src/preprocess.py:20 | no whitespace at either end; the result is a slice of the input with only whitespace before and after it (`IsTrimmedTo`); `[a-z0-9\s]` text stays in that alphabet |
| Preprocess.TrimmedSlice | social_ml/src/preprocess.py:20 | dropping the leading and then the trailing whitespace leaves such a slice |
| Preprocess.StripUnchanged | social_ml/src/preprocess.py:20 | text with no whitespace at either end is unchanged |
| Preprocess.Split | social_ml/src/preprocess.py:21 | `str.split()` gives non-empty tokens without whitespace, over `[a-z0-9]` when the text is over `[a-z0-9\s]` |
| Preprocess.SplitKeepsText | social_ml/src/preprocess.py:21 | the tokens glued together are the text without its whitespace |
| Preprocess.RemoveSpacesOfRun | social_ml/src/preprocess.py:21 | a run without whitespace survives whitespace removal whole |
| Preprocess.SplitFront | social_ml/src/preprocess.py:21 | a text starting with a non-space character begins with its maximal non-space run as the first token |
| Preprocess.SplitJoin | social_ml/src/preprocess.py:21-22 | splitting the space-join (`Join`) of tokens gives those tokens back |
| Preprocess.JoinSplit | social_ml/src/preprocess.py:21-22 | a text of the cleaned shape is the space-join of its tokens |
| Preprocess.JoinCons | social_ml/src/preprocess.py:22 | joining puts exactly one space between the first token and the rest |
| Preprocess.CleanShapeAfterSpace | social_ml/src/preprocess.py:20-22 | after a whitespace character in a cleaned-shape text comes a cleaned-shape text that starts a token |
| Preprocess.JoinShape | social_ml/src/preprocess.py:22 | joining `[a-z0-9]` tokens gives `[a-z0-9]` and single spaces, none at either end |
| Preprocess.KeepTokens | social_ml/src/preprocess.py:21 | keeps a subsequence in order; every kept token is longer than 1, not a stopword, and from the input; every such input token is kept |
| Preprocess.KeepTokensCount | social_ml/src/preprocess.py:21 | one token is kept for each position holding a token longer than 1 that is not a stopword, duplicates included |
| Preprocess.KeepTokensFirst | social_ml/src/preprocess.py:21 | the first token is kept exactly when it is longer than 1 and not a stopword |
| Preprocess.KeepTokensAppend | social_ml/src/preprocess.py:21 | filtering works piecewise over a concatenation of token lists |
| Preprocess.KeepTokensLast | social_ml/src/preprocess.py:21 | the last token adds one kept token exactly when it qualifies |
| Preprocess.KeptPositionsLast | social_ml/src/preprocess.py:21 | the last position adds one qualifying position exactly when its token qualifies |
| Preprocess.Normalize | social_ml/src/preprocess.py:14-20 | the text before splitting is over `[a-z0-9\s]` with no whitespace at either end |
| Preprocess.CleanText | social_ml/src/preprocess.py:11-22 | a non-string gives `""`; the output is `[a-z0-9]` and single spaces with none at either end; its tokens are the filtered tokens of the normalised text |
| Preprocess.CleanTextTokens | social_ml/src/preprocess.py:20-22 | the output tokens are an in-order subsequence of the normalised text's tokens, each longer than 1 and not a stopword |
| Preprocess.StripUrlsOnExample | social_ml/src/preprocess.py:16 | `"ht#tpx"` holds no URL |
| Preprocess.HashFreeOnExample | social_ml/src/preprocess.py:18 | `"ht"` and `"tpx"` are unchanged by `#` removal |
| Preprocess.RemoveHashesOnExample | social_ml/src/preprocess.py:18 | `"ht#tpx"` becomes `"httpx"` |
| Preprocess.SplitOnExample | social_ml/src/preprocess.py:21 | `"httpx"` is one token, and it is kept |
| Preprocess.CaseAndMentionsOnExample | social_ml/src/preprocess.py:14-17 | lowering and mention stripping leave the example unchanged |
| Preprocess.LaterStagesOnExample | social_ml/src/preprocess.py:19-20 | the last substitutions leave `"httpx"` unchanged |
| Preprocess.CleanTextOnExample | social_ml/src/preprocess.py:11-22 | `"ht#tpx"` cleans to `"httpx"` |
| Preprocess.CleanTextOnUrl | social_ml/src/preprocess.py:11-22 | `"httpx"` cleans to `""` |
| Preprocess.CleanTextNotIdempotent | social_ml/src/preprocess.py:16-18 | cleaning twice can differ from cleaning once |
| SensorModel.NumericValues | cloud_ingest/sensor_model.py:18 | at most one value per row; none are left exactly when every cell is non-numeric or missing |
| SensorModel.NumericValuesOfRow | cloud_ingest/sensor_model.py:18 | one row gives its numeric value, or nothing when the cell is NaN |
| SensorModel.NumericValuesAppend | cloud_ingest/sensor_model.py:18 | dropping NaN works piecewise over a concatenation of rows; with `NumericValuesOfRow` this pins down the result as the numeric cells in row order |
| SensorModel.NumericValuesCount | cloud_ingest/sensor_model.py:18 | there is one value for each row whose cell is numeric |
| SensorModel.NumericValuesLast | cloud_ingest/sensor_model.py:18 | the last row adds one value exactly when its cell is numeric |
| SensorModel.NumericPositionsLast | cloud_ingest/sensor_model.py:18 | the last row adds one numeric position exactly when its cell is numeric |
| SensorModel.NumericValuesMembers | cloud_ingest/sensor_model.py:18 | a value is kept exactly when some row holds it in that column |
| SensorModel.Max | cloud_ingest/sensor_model.py:22 | `np.max` is one of the values and at least every value |
| SensorModel.SquaredDeviations | cloud_ingest/sensor_model.py:21 | the sum of squared deviations is non-negative |
| SensorModel.Variance | cloud_ingest/sensor_model.py:21 | the population variance (ddof=0) is non-negative |
| SensorModel.MeanTimesCount | cloud_ingest/sensor_model.py:20 | `np.mean` (`Mean`) times the number of values is their sum |
| SensorModel.MeanAtMostMax | cloud_ingest/sensor_model.py:20-22 | the mean never exceeds the maximum |
| SensorModel.StatsOf | cloud_ingest/sensor_model.py:19-22 | mean, std and max summarise the values: mean ≤ max, max attained, std the root of the variance |
| SensorModel.ChannelStats | cloud_ingest/sensor_model.py:16-30 | an absent column, or one with no numeric value, gives zeros; otherwise the statistics of its numeric values only |
| SensorModel.FeatureNameInjective | cloud_ingest/sensor_model.py:20-30 | different channels or statistics never share a key |
| SensorModel.NamesUpTo | cloud_ingest/sensor_model.py:15-30 | every key of the first k channels is in the set |
| SensorModel.LaterNameIsNew | cloud_ingest/sensor_model.py:15-30 | a later channel adds keys that are not there yet |
| SensorModel.NamesUpToSize | cloud_ingest/sensor_model.py:15-30 | k channels give 3k distinct keys |
| SensorModel.FeaturesUpToContents | cloud_ingest/sensor_model.py:15-30 | after k channels the map holds exactly their keys, each bound to its statistic |
| SensorModel.FeatureColumnsAreNames | cloud_ingest/sensor_model.py:20-30 | entry 3j+t of the insertion-order column list is key t of channel j |
| SensorModel.NamesAreFeatureColumns | cloud_ingest/sensor_model.py:14-31 | the keys are exactly the nine `<channel>_<stat>` names |
| SensorModel.FeaturesContents | cloud_ingest/sensor_model.py:12-31 | the meaning of `Features`: any window, even an empty one, gives exactly nine keys, each bound to its channel's statistic |
| SensorModel.FeaturizeWindow | cloud_ingest/sensor_model.py:12-31 | the loop with its three branches returns exactly `Features` |
| SensorModel.ChunksCoverInOrder | cloud_ingest/sensor_model.py:48-49 | the windows (`Chunks`) together are every row once, in order |
| SensorModel.ChunksCount | cloud_ingest/sensor_model.py:48 | there are ceil(n/size) windows, none exactly when there are no rows |
| SensorModel.ChunksSizes | cloud_ingest/sensor_model.py:48-49 | every window is non-empty and full, except possibly the last |
| SensorModel.ChunksStep | cloud_ingest/sensor_model.py:48-49 | the window at row i is `rows[i:i+size]`, and the rest follows it |
| SensorModel.ChunkIsSlice | cloud_ingest/sensor_model.py:48-49 | window k is `rows[k*size : k*size+size]`, cut off at the end |
| SensorModel.StartIsProduct | cloud_ingest/sensor_model.py:48 | the k-th value of `range(0, n, size)` is k*size |
| SensorModel.ChunkAt | cloud_ingest/sensor_model.py:48-49 | window k starts at the k-th value of the range |
| SensorModel.FeaturizesChunksAppend | cloud_ingest/sensor_model.py:50-51 | appending one window's features extends the correspondence by one |
| SensorModel.FeaturizeChunks | cloud_ingest/sensor_model.py:47-51 | `windows[k]` is the feature map of chunk k, for each of the chunks |
| SensorModel.TrainingWindows | cloud_ingest/sensor_model.py:47-56 | step 0 raises; a negative step or no rows gives no windows and aborts; otherwise one feature map per chunk |
| SensorModel.Reindex | cloud_ingest/sensor_model.py:79 | one value per model column, in order: the feature when present, else 0.0 |
| SensorModel.ReindexIgnoresExtras | cloud_ingest/sensor_model.py:79 | features outside the column list play no part |
| SensorModel.TrainedColumnsNeedNoFill | cloud_ingest/sensor_model.py:79 | on the nine training columns every feature is copied, none zero-filled |
| SensorModel.PredictWindow | cloud_ingest/sensor_model.py:65-86 | fails with model-not-found exactly when no tuple is given and no file exists; otherwise the score is the negated decision value, and the anomaly flag is set iff `predict` gives -1 |
| SensorModel.GivenModelIgnoresStored | cloud_ingest/sensor_model.py:71-76 | with a model tuple given, the stored file plays no part |
| SensorModel.AnomalyExactlyWhenScorePositive | cloud_ingest/sensor_model.py:81-86 | for a detector that flags exactly negative decision values, a window is an anomaly iff its score is positive |

## Left out

- The HTTP calls of `fuse_and_decide` (orchestrator/orchestrator.py:7, 13) are not modelled. Their decoded replies are inputs.
- The reply fields are not Python's dynamic JSON values:
  - `alert` is a boolean, not any JSON value tested for truthiness.
  - `label` is an integer.
  - A field present with value `null` is not modelled.
- Floating point is modelled as exact reals. In particular, `>= 0.6` compares against the real 0.6, not against the nearest double.
- Square root is a parameter `sqrt` whose properties are not assumed, so `np.std` is only the root of the variance that the model defines.
- `pd.to_numeric(errors='coerce')` is not modelled. A cell is an `Option<real>` holding the value after coercion, so `None` stands for a missing, NaN or non-numeric entry.
- Character classes are ASCII approximations:
  - `\w` is `[A-Za-z0-9_]`.
  - `str.lower` maps only `A-Z`.
  - `\s` and `str.split()` use Python's `str.isspace` set of code points.
- `emoji.replace_emoji` is a parameter `removeEmoji`, and the NLTK stopword list is a parameter `stopwords`. Neither library is part of this model.
- Reading the CSV in `train_iforest`, the `IsolationForest` fit, `joblib.dump` and the prints are not modelled.
  - `SensorModel.TrainingWindows` models the windowing and the empty-table abort only.
  - The saved column list is `X.columns`, which in insertion order is `FeatureColumns`. That fact is used informally by `TrainedColumnsNeedNoFill`.
- `pd.DataFrame(windows).fillna(0.0)` needs no model, because every window has the same nine keys (`FeaturesContents`).
- `joblib.load` is not modelled. A stored artifact is an already-decoded `Option<ModelTuple>` (so corrupt files and load errors are out of scope), and `os.path.exists` is whether that option is present.
- The estimator is uninterpreted: `decisionFunction` and `predict` are opaque functions of the feature row.
- `orchestrator/api.py`, the training and prediction scripts of the text classifier, the Firebase reader and the dashboard are not part of this model.
- StripUrls: the function's own contract states only that stripping never lengthens the text. What is removed is stated by `UrlIsRemoved`, `UrlAnywhere`, `StripUrlsAppend`, `StripUrlsAfterPlainText` and `StripUrlsWithoutUrl`.
- StripMentions: the function's own contract states only that stripping never lengthens the text. What is removed is stated by `MentionIsRemoved`, `MentionAnywhere`, `StripMentionsAppend` and `StripMentionsUnchanged`.
- Collapse: the function's own contract states the shape of the result, including both ends. That the tokens are kept is stated by `CollapseKeepsTokens`.
- Split: the function's own contract states what each token is. That the tokens are the whole text without its whitespace is stated by `SplitKeepsText`, and the round trip with `Join` by `SplitJoin` and `JoinSplit`.
- KeepTokens: the function's own contract does not count the kept tokens. The count, duplicates included, is stated by `KeepTokensCount`.
- NumericValues: the function's own contract does not say which values are kept. That is stated by `NumericValuesOfRow`, `NumericValuesAppend`, `NumericValuesCount` and `NumericValuesMembers`.
