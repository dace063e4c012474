# MoCo4SRec core, modelled in Dafny

MoCo4SRec is a sequential recommender: a SASRec-style transformer with a
MoCo (momentum contrast) objective. This project models the numeric and
combinatorial core of `src/models.py` and proves properties about it:

- **NegativeQueue**: the queue of K negative keys, as a class over an array of columns with a write pointer. `_dequeue_and_enqueue` is a method on it.
- **AttentionMask**: the additive attention bias, 0 or -10000. It combines a padding mask with a causal mask.
- **Cutoff**: `cutoff_embeddings` in the directions row, column and random, including its error paths. It is written as a loop method proved against a specification function.
- **Contrastive**: the logits block of `moco_trans_encoder`. It covers positive and negative logits, suppression of negatives above `phi`, the temperature and the labels.
- **Momentum**: the momentum encoder, as a class over two parameter arrays. It models the exact copy made at construction and `_momentum_update_key_encoder`.
- **BatchShuffle**: `batch_shuffle_single_gpu` and `batch_unshuffle_single_gpu`, with argsort as the inverse permutation.
- **ItemCF**: the co-occurrence counting loops of the ItemCF similarity.
- **OfflineSimilarity**: `most_similar` without scores, and the minimum and maximum score scan.
- **TrainData**: `_convert_data_to_dict` and `_load_train_data`, which take the file's lines as input.
- **PyText**: the Python string behaviour these depend on: `str(int)`, `int(str)`, `strip` and `split`.

A few modelling choices apply throughout:

- Tensors are nested sequences of `real`.
- Randomness is a parameter: the shuffles of cutoff, the batch permutation and the `random.sample` draw.
- The similarity dictionary, whose iteration order decides ties in `most_similar`, is a sequence of key/value pairs in insertion order. The training dictionary `train_data_dict` and the ItemCF count `C` are iterated too, but they are `map`s, because the counts do not depend on the order.
- Python exceptions are `Err` values of a `Result`.

## Model

| member | source | states |
|---|---|---|
| NegativeQueue.Queue.DequeueAndEnqueue | src/models.py:157-183 | Writes key i of the batch into column (ptr + i) mod K, wrapping past the end. It leaves every other column as it was and sets the pointer to (ptr + B) mod K. |
| NegativeQueue.Queue.constructor | src/models.py:52-56 | The queue starts with the given K columns, all of width dim, and a pointer of 0. |
| NegativeQueue.SlotIsMod | src/models.py:180 | The ring slot i steps past the pointer is (ptr + i) % K. |
| NegativeQueue.Enqueued | src/models.py:171-175 | The queue after writing a batch of B <= K keys from the pointer keeps its K columns. EnqueuedEntry, EnqueuedWritesKeys and EnqueuedFrame state which column gets which key. |
| NegativeQueue.EnqueuedEntry | src/models.py:171-175 | A column gets key c - ptr when ptr <= c < ptr + B, or key c + K - ptr when it lies in the part that wrapped to the head. Otherwise it keeps its value. |
| NegativeQueue.EnqueuedWritesKeys | src/models.py:171-175 | Key i of the batch lands in slot (ptr + i) mod K. |
| NegativeQueue.EnqueuedFrame | src/models.py:171-175 | A slot that no key reaches keeps its column. |
| NegativeQueue.EnqueuedCompose | src/models.py:171-180 | Writing batch a and then batch b from the pointer a leaves gives the same queue as writing a + b at once. |
| NegativeQueue.OneByOneIsBatched | src/models.py:171-180 | A sequence of one-key enqueues leaves the same queue as one batched enqueue, and the same pointer (ptr + B) mod K. |
| NegativeQueue.FullCycle | src/models.py:171-180 | After K one-key enqueues the pointer those calls leave is back where it started. The queue then holds exactly those K keys in ring order. |
| AttentionMask.AttentionBias | src/models.py:122-135 | One n x n bias matrix per id sequence of length n. AttentionBiasSpec gives every entry. |
| AttentionMask.AttentionBiasSpec | src/models.py:122-135 | The bias has one n x n matrix per sequence. Entry (i, j) is 0 exactly when key position j holds an item (id > 0) and j <= i; otherwise it is -10000. |
| AttentionMask.BiasIsBinary | src/models.py:133-135 | Every bias entry is 0 or -10000. |
| AttentionMask.PaddingNeverAttended | src/models.py:122-135 | A padding position is masked for every query position. |
| AttentionMask.BiasRowIsCausal | src/models.py:124-133 | Row i of the bias depends only on the ids at positions 0..i. |
| Cutoff.CutoffBatch | src/models.py:85-117 | An empty batch raises in torch.cat. A successful call returns one sample per input sample. CutoffErrors gives every error case, and CutoffOutput every entry of the result. |
| Cutoff.CutoffEmbeddings | src/models.py:85-117 | The per-sample loop returns exactly the batch specification: the first error raised, or every sample with its chosen indexes zeroed. |
| Cutoff.CutoffErrors | src/models.py:86-104 | The call raises exactly when the batch is empty, or the direction is not row/column/random, or some sample's int(n * rate) lies outside [0, n]. |
| Cutoff.CutoffOutput | src/models.py:105-116 | On success the output keeps the input's shape. An entry on a chosen row, column or flattened position is 0; every other entry is the input's. |
| Cutoff.CutCountInRange | src/models.py:102-104 | For 0 <= rate <= 1 and n >= 0, int(n * rate) lies in [0, n], so the count check does not raise. |
| Cutoff.AcceptedWhenValid | src/models.py:91-104 | A sample with a 0/1 mask passes both checks for any of the three directions and any rate in [0, 1]. |
| Cutoff.CutoffSucceeds | src/models.py:86-116 | A nonempty, well-shaped batch with a 0/1 mask, a known direction and a rate in [0, 1] never raises. |
| Cutoff.CutIndexesCount | src/models.py:102-108 | Exactly int(n * rate) distinct indexes are chosen, all in range(n). |
| Cutoff.CutIndexesInBounds | src/models.py:105-113 | Every chosen index lies inside the axis that index_fill works along. |
| Cutoff.CutoffPrefixErrors | src/models.py:88-104 | The first n iterations raise exactly when one of those samples is rejected. |
| Cutoff.CutoffPrefixValue | src/models.py:88-114 | n iterations that do not raise produce the n cut samples in order. |
| Cutoff.PrefixErrorPersists | src/models.py:100-104 | Once an iteration has raised, later iterations do not change the error. |
| Cutoff.TruncTowardZero | src/models.py:102 | int() truncates toward zero: the count is within 1 of n * rate and never farther from 0. |
| Cutoff.MaskSumBounds | src/models.py:92 | For a 0/1 mask the token count lies between 0 and the sequence length. |
| Cutoff.RowCutoffUsesLeadingRows | src/models.py:91-93 | The row direction only ever zeroes rows 0..n-1, n being the number of item tokens, wherever the items are. |
| Cutoff.RowCutoffHitsPadding | src/models.py:91-111 | For the left-padded sample [pad, item] at rate 1, the row direction zeroes the padding row and keeps the item row. |
| Contrastive.Logits | src/models.py:263-280 | Logits have one row of width 1 + K per example, and labels are one 0 per example. LogitsSpec gives every entry. |
| Contrastive.LogitsSpec | src/models.py:263-280 | Each row of the logits has width 1 + K. Column 0 is l_pos / T; column 1 + k is l_neg[k] / T, or 0 when l_neg[k] > phi. Every label is 0. |
| Contrastive.MocoLogitsSpec | src/models.py:263-277 | In terms of the vectors: column 0 is q.k / T, and column 1 + c is q.queue[c] / T unless that exceeds phi. |
| Contrastive.NegativesBounded | src/models.py:269-277 | For T > 0, no negative column exceeds max(phi, 0) / T. |
| Contrastive.ThresholdPassesThrough | src/models.py:269 | The filter is strict: a negative equal to phi is kept. |
| Momentum.MomentumStep | src/models.py:150-155 | The momentum step keeps the shape of every parameter. StepAtOneKeepsKeys, StepAtZeroCopiesQueries, StepKeepsEqualEncoders and StepIsConvex give its values. |
| Momentum.MomentumPair.MomentumUpdate | src/models.py:150-155 | Every key parameter becomes key * m + query * (1 - m), elementwise. The query parameters are not touched. |
| Momentum.MomentumPair.constructor | src/models.py:46-50 | The key encoder starts as an exact copy of the query encoder's parameters. |
| Momentum.StepAtOneKeepsKeys | src/models.py:155 | With m = 1 the key parameters do not move. |
| Momentum.StepAtZeroCopiesQueries | src/models.py:155 | With m = 0 the keys become the queries. |
| Momentum.StepKeepsEqualEncoders | src/models.py:46-50 | Encoders that agree, as they do after initialisation, stay equal under the update for every m. |
| Momentum.StepIsConvex | src/models.py:155 | For 0 <= m <= 1 each new key entry lies between the old key entry and the query entry. |
| BatchShuffle.BatchShuffleSingleGpu | src/models.py:188-198 | The shuffled batch has the batch's size, and idx_unshuffle = argsort(idx_shuffle) is a permutation of range(n). UnshuffleRoundTrip shows it restores the batch. |
| BatchShuffle.BatchUnshuffleSingleGpu | src/models.py:203-207 | x[idx_unshuffle] has one row per index, each a row of x. ShuffleAfterUnshuffle and UnshuffleRoundTrip show it inverts the shuffle. |
| BatchShuffle.ArgsortSorts | src/models.py:196 | argsort of a permutation is a permutation, and indexing p with it yields 0, 1, ..., n-1. |
| BatchShuffle.ArgsortUnique | src/models.py:196 | Any permutation that lists p's values in increasing order is argsort(p). |
| BatchShuffle.UnshuffleRoundTrip | src/models.py:188-207 | Unshuffling with the index that the shuffle returned restores the batch. |
| BatchShuffle.ShuffleAfterUnshuffle | src/models.py:193-207 | Applied in the other order, the two indexes also restore the batch: they are mutually inverse. |
| BatchShuffle.PermutationCovers | src/models.py:193-196 | A permutation of range(n) contains every value below n. |
| ItemCF.CountCoOccurrences | src/models.py:412-425 | Afterwards N[i] is the number of users who have item i, with a key only for items that occur. C[i][j] is the number of users who have both i and j, with keys only for co-occurring pairs of distinct items, and with no empty row. |
| ItemCF.CountUser | src/models.py:417-425 | One user adds 1 to N[i] for each of their items, and 1 to C[i][j] for each pair of distinct items. |
| ItemCF.CountPairsOf | src/models.py:420-425 | For the current item i, adds 1 to C[i][j] for every other item j of the user. |
| ItemCF.BumpSpec | src/models.py:423-425 | setdefault on the row, setdefault on the entry, then += 1: C[i][j] gains exactly one, created when missing. Nothing else changes and no row is empty. |
| ItemCF.CountsStep | src/models.py:415-425 | Counting one more user keeps N and C exact over the users seen. |
| ItemCF.CountBounds | src/models.py:417-425 | N[i] is at most the number of users, and C[i][j] is at most N[i] and at most N[j]. |
| ItemCF.CountsShape | src/models.py:420-425 | C has no diagonal entry, and it is symmetric in both its keys and its counts. |
| ItemCF.CoOccurrenceSymmetric | src/models.py:420-425 | The co-occurrence count of (i, j) equals that of (j, i). |
| OfflineSimilarity.MostSimilar | src/models.py:484-508 | A successful call returns at most top_k items for top_k >= 0, and exactly top_k for an unknown item. MostSimilarKnown and MostSimilarUnknown give the result and the error cases. |
| OfflineSimilarity.MostSimilarKnown | src/models.py:487-502 | For an item found under str(item) or int(item), the result is the int() of its top entries in descending score order. It fails only if one of those keys is not an integer, and has min(top_k, n) entries for top_k >= 0. |
| OfflineSimilarity.MostSimilarUnknown | src/models.py:503-508 | For an item under neither key, ValueError is raised exactly when top_k < 0 or top_k > the number of keys. Otherwise the call succeeds exactly when every drawn key converts with int(), and the result is the int() of the top_k drawn keys. |
| OfflineSimilarity.UnknownItemCanBeItsOwnNeighbour | src/models.py:487-508 | A dictionary whose only key is "07" does not know item 7 under "7" or 7, and its fallback returns 7 itself. |
| OfflineSimilarity.NeighboursOfSpec | src/models.py:487-497 | The item is unknown exactly when neither str(item) nor int(item) is a key. When str(item) is a key its dictionary is used; otherwise the dictionary under int(item) is. |
| OfflineSimilarity.TopNeighboursSpec | src/models.py:488-489 | sorted(..., reverse=True)[0:top_k] has Python slice length (negative top_k included) and is in descending order. It is a sub-multiset of the neighbours, and no neighbour left out scores above one taken. |
| OfflineSimilarity.SortByScoreSpec | src/models.py:488 | The descending sort is ordered by score and is a permutation of its input. |
| OfflineSimilarity.SortByScoreStable | src/models.py:488 | The sort is stable: entries with equal scores keep their dictionary order. |
| OfflineSimilarity.ToInts | src/models.py:494 | list(map(int, keys)) succeeds exactly when every key converts, and gives one int per key. Otherwise it raises for a key that does not convert. |
| OfflineSimilarity.Lookup | src/models.py:487-497 | d[k] is found exactly when some entry has key k, and what is found is that entry's value. |
| OfflineSimilarity.MaxMinScores | src/models.py:360-367 | Starting from -1 and 100, the two results bound every score. Each one is either a score that occurs or its starting value. |
| PyText.ParseInt | src/models.py:494-495 | int() rejects a string that is empty after stripping. A negative result comes from a leading '-', and every character after the first is a digit. ParseDecimal gives int(str(n)) == n. |
| PyText.ParseDecimal | src/models.py:487-495 | int(str(n)) == n for every integer n. |
| PyText.JoinSplit | src/models.py:396 | Splitting on a character and joining with it gives back the string. |
| PyText.Strip | src/models.py:394 | strip() never lengthens a string and leaves no whitespace at either end. |
| PyText.StripRemovesOnlySpace | src/models.py:394 | strip() removes only whitespace: its result is a contiguous slice of the line with nothing but whitespace before and after it. |
| PyText.SplitOnce | src/models.py:394 | split(' ', 1) has two parts exactly when the string contains a space. The head then has no space, and head + ' ' + tail is the string. |
| PyText.Split | src/models.py:396 | split(' ') always has at least one piece, and no piece contains the separator. |
| TrainData.ToDict | src/models.py:369-379 | The dictionary is empty exactly when there are no records, and the last record's user and item are always present. ToDictUsers, ToDictPairs, ToDictValues and ToDictLastWrite give its contents. |
| TrainData.ConvertDataToDict | src/models.py:369-379 | The loop builds the dictionary of writing the records in order. |
| TrainData.ToDictUsers | src/models.py:375-378 | A user is a key exactly when some record names them. |
| TrainData.ToDictPairs | src/models.py:376-378 | An item is under a user exactly when some record names both. |
| TrainData.ToDictValues | src/models.py:378 | Every stored value is the record of some triple for that user and item. |
| TrainData.ToDictLastWrite | src/models.py:376-378 | The last record written for a (user, item) pair is the value kept. |
| TrainData.ParseLineRoundTrip | src/models.py:394-396 | A line made of a user id, the kept items and three held-out items, separated by single spaces, parses back to the user and the kept items. |
| TrainData.ParseLine | src/models.py:394-396 | The line fails to unpack exactly when its stripped form has no space. ParseLineSpec and ParseLineRoundTrip give the parts. |
| TrainData.ParseLineSpec | src/models.py:394-396 | A line fails to unpack exactly when it has no space after stripping. Otherwise the user id has no space, no kept item has a space, and the kept items are split(' ')[:-3] of the rest. |
| TrainData.LoadTrainData | src/models.py:386-401 | Fails at the first line that does not unpack. Otherwise it returns each line's kept items, the set of all kept items, and the dictionary of the (user, item, 1) records. |
| TrainData.AppendLineRecords | src/models.py:399-400 | Appends one (user, item, 1) record per kept item, in order. |
| TrainData.RecordsSpec | src/models.py:397-400 | A record exists exactly for each line's user paired with each of that line's kept items, with value 1. |
| TrainData.LoadedDictSpec | src/models.py:397-401 | The loaded dictionary holds (user, item) exactly when a line of that user keeps the item, and always with record 1. |
| TrainData.KeptAppend | src/models.py:398 | Adding a line's items to the list adds exactly those items to the set. |

## Left out

- The neural network modules are not part of this model: embeddings, `Encoder`, `LayerNorm`, dropout, the projection head and `init_weights`. The attention is modelled only through the bias it receives.
- Floating point is not modelled. Tensors hold `real`, so `nn.functional.normalize` (and its square root), float rounding and fp16 casts are out of scope.
- `add_position_embedding` is not modelled. It consists of embedding lookups, a random position shuffle and Gaussian noise.
- Randomness comes in as parameters rather than being modelled: `torch.randn` for the initial queue, `random.shuffle` in cutoff, `torch.randperm` in the batch shuffle, and `random.sample` in `most_similar`.
- `moco_trans_encoder` as a whole is not modelled. Its call `add_position_embedding(..., noise=noise)` passes a keyword that the function does not have (its parameter is `usenoise`), so as written the method raises TypeError before the logits. The logits block (lines 263-280) is modelled on its own, from given `q`, `k` and queue.
- The `.cuda()` device moves and `@torch.no_grad()` have no counterpart, since neither affects values.
- NegativeQueue.Queue.DequeueAndEnqueue: requires B <= K. For K < B <= 2K - ptr the source does not raise. The head segment `queue[:, :ptr + B - K]` overlaps the tail segment just written, so the earliest keys are silently overwritten by later ones, and the pointer becomes (ptr + B) % K. Only for B > 2K - ptr do the shapes of the second slice assignment mismatch, and then it raises. Neither path is modelled. The source asks for nothing more (no K % B == 0: that assert is commented out).
- NegativeQueue.Queue.constructor: requires K > 0, since the pointer update divides by K.
- Contrastive.PositiveLogits and Contrastive.NegativeLogits: require q, k and the queue columns to have equal widths. On a mismatch the einsums at lines 263-266 raise, and that error path is not modelled.
- Contrastive.Logits: requires T != 0. With T == 0, float division gives infinities or NaN, which `real` has no value for.
- Cutoff.CutoffEmbeddings: as in the source, masks are taken as given. The properties about token counts (MaskSumBounds, CutIndexesInBounds) assume a 0/1 mask, which `(input_ids > 0).long()` always produces.
- Cutoff: `torch.index_fill` with an out-of-range index raises, and that is not modelled. CutIndexesInBounds shows it cannot happen for well-shaped input.
- The ItemCF_IUF, Item2Vec and LightGCN similarity builders are not modelled. They need `math.log`, `math.sqrt`, gensim and LightGCN training. For the same reason the normalisation step `score / sqrt(N[i] * N[j])` is left out, and ItemCF stops at the counts N and C.
- `_save_dict`, `load_similarity_model` and all file reading and pickling are I/O. `_load_train_data` is modelled on the file's lines.
- OfflineSimilarity.MostSimilar: `item` is an int. The source accepts whatever the caller passes; for a string that is not a key, `int(item)` at line 495 raises ValueError before the fallback, and that path is not modelled.
- OfflineSimilarity.MostSimilar: `with_score=True`, which rescales by `(max - s) / (max - min)`, is left out as floating point.
- The 'Random' model name is unreachable in the source. The constructor's `get_maximum_minimum_sim_scores` calls `.keys()` on the set that `load_similarity_model` returns, which raises AttributeError, so the 'Random' branch of `most_similar` is not modelled.
- An unknown model name makes `load_similarity_model` return None, on which the constructor also fails. That path is not modelled either.
- PyText.ParseInt: only surrounding whitespace, an optional sign and ASCII digits are accepted. Python's `int()` also accepts underscores between digits and non-ASCII decimal digits.
- Python `max(a, b)` and `min(a, b)` over mixed int and float values are modelled on `real`.
- The ItemCF dictionaries `train_data_dict` and `C` are iterated by the source, but they are modelled as `map`s, so their order is not kept. The counts do not depend on it. `C`'s order becomes the order of the saved similarity dictionary, and that decides ties in `most_similar`. The model does not derive that order from ItemCF; OfflineSimilarity takes the saved dictionary, in its order, as input.
- `OnlineItemSimilarity` is not part of this model. It is built entirely from embedding tensors, `torch.mm` and `topk`.
- The `train_data_set_list` of `_load_train_data` is modelled directly as the set it becomes.
