# map-sat core in Dafny

map-sat builds satellite-image datasets. It samples random points inside a
region given as shapefile geometry and splits them into train, validation
and test sets. For each point it then downloads the map tiles that cover it
from several tile servers. This project models the logic of that pipeline
once randomness, geometry, processes and the network are replaced by
abstract inputs:

- `Coords` (coords.dfy): `change_lat_with_lon`, the swap of the two
  components of every coordinate pair.
- `Sampler` (sampler.dfy): the rejection-sampling loop, serial and per
  worker.
  - A candidate is kept when some geometry row contains it.
  - Random draws are a finite candidate stream.
  - Containment is an abstract test `contains(row, p)`.
  - The parallel variant is covered too: its share and seed arithmetic, the
    progress loop that sums the workers' reports, and the concatenation of
    the workers' result lists.
  - The two queues deliver their items in any order, so each is modelled as
    any arrangement (equal multiset) of what the workers put on it.
- `Splitter` (splitter.dfy): `create_train_val_test`.
  - The checkerboard method classifies points by truncated grid cells.
  - The random method slices a shuffled list. The shuffle is modelled as
    any permutation of the input.
  - An unknown method raises `ValueError`.
- `Decimal` (decimal.dfy): Python's `str()` on integers, and the parse that
  undoes it.
- `Tiles` (tiles.dfy): the `APIS` URL template table and `format_string`.
  - `format_string` is modelled as three successive Python `str.replace`
    calls.
  - It is proved equal to a single pass that fills every `{x}`, `{y}` and
    `{z}` at once.
- `Retry` (retry.dfy): the bounded retry loop of `download_tile`. Each
  curl attempt's outcome is an input.
- `Results` and `Seqs` (results.dfy, seqs.dfy) are shared helpers:
  - `Option` and `Result`;
  - `max(n, 0)` and `min`;
  - sum and concatenation of sequences, with their permutation lemmas.

Two details of the splitter:
- Cell indices are `int(v / degrees)`, which truncates toward zero.
  `Splitter.TruncNearZero` records that values in `(-degrees, 0)` fall in
  cell 0, where a floor would give -1.
- The `ValueError` message is the fixed text the code raises. It does not
  name the rejected method.

## Model

| member | source | states |
|---|---|---|
| Coords.SwapLatLon | shapefile_utils.py:17-18 | the result has the input's length and, at every index, the input pair with its components exchanged |
| Coords.SwapLatLonInvolution | shapefile_utils.py:17-18 | swapping twice returns the original list |
| Sampler.IsWithin | shapefile_utils.py:74-78 | the scan over the rows answers true exactly when at least one row contains the candidate |
| Sampler.Accepted | shapefile_utils.py:68-82 | the accepted candidates are drawn candidates that lie in the region, no candidate that lies in the region is missing, and there are at most as many as draws |
| Sampler.AcceptedAppend | shapefile_utils.py:68-82 | filtering two consecutive stretches of draws is filtering each and concatenating, so acceptance keeps draw order |
| Sampler.SampleWithin | shapefile_utils.py:66-84 | the loop returns the accepted candidates among the draws it used. It finishes exactly when the stream holds at least `num_points` acceptable candidates, and then returns exactly `max(num_points, 0)` of them: the first ones, in draw order. This is the worker's list: the first `max(num_points, 0)` accepted candidates of its stream. It stops at the first draw that reaches the count, and it uses the whole stream when it does not finish |
| Sampler.Shares | shapefile_utils.py:123-130 | there are W shares, each `n // W` or `n // W + 1`. The extra point goes exactly to workers below `n % W`. Shares never grow with the worker index, they sum to `n`. Each share is non-negative when `n >= 0` and non-positive when `n < 0` |
| Sampler.WorkerSeeds | shapefile_utils.py:129-134 | worker 0 gets `seed`, each next worker the next integer, so all seeds are pairwise distinct |
| Sampler.AwaitProgress | shapefile_utils.py:140-146 | when the reports are the shares in any order, the loop never reads past the last report, stops at the first prefix whose total reaches `num_points`, and ends with the total `max(num_points, 0)` |
| Sampler.WorkerListFacts | shapefile_utils.py:96-116 | a worker that finishes returns exactly `max(share, 0)` points, all inside the region |
| Sampler.WorkerPointsTotal | shapefile_utils.py:96-116 | when every worker finishes, the worker lists together hold exactly `max(num_points, 0)` points, all inside the region |
| Sampler.StartWorker | shapefile_utils.py:96-116 | worker `i` runs the sampling loop on the stream seeded `seed + i` for its share. It finishes exactly when that stream holds at least its share of acceptable candidates, and then returns the first `max(share, 0)` of them |
| Sampler.RunWorkers | shapefile_utils.py:128-137 | starting every worker succeeds exactly when every stream holds enough accepted candidates for its share. The lists returned are then, worker by worker, the first `max(share, 0)` accepted candidates of the stream seeded `seed + i` |
| Sampler.CollectResults | shapefile_utils.py:148-152 | the result is the lists concatenated in the order they come off the queue, and a point is present exactly when some list holds it |
| Sampler.SampleParallel | shapefile_utils.py:87-158 | in whatever order the queues deliver, the result is defined exactly when all workers finish, and then has `max(num_points, 0)` points, all inside the region. It is the lists concatenated in the order they arrive on the result queue. These are the same points, with the same multiplicities, as the lists the worker loops compute, concatenated in worker order |
| Splitter.Trunc | shapefile_utils.py:228-229 | `int()` on a real rounds toward zero: it is at most the value for non-negative inputs and at least the value for negative ones, within one |
| Splitter.TruncNearZero | shapefile_utils.py:228-229 | every value strictly between -1 and 1 truncates to 0, while the floor of a negative such value is -1 |
| Splitter.CellPart | shapefile_utils.py:232-237 | train exactly when either cell index is even; validation exactly when the first is odd and the second is 1 mod 4; test exactly when the first is odd and the second is 3 mod 4 |
| Splitter.CellPartPeriodic | shapefile_utils.py:232-237 | the pattern repeats every 2 cells in the first index and every 4 in the second |
| Splitter.Select | shapefile_utils.py:226-237 | one part's list holds only input points of that part and every input point of that part |
| Splitter.PlaceAddsOne | shapefile_utils.py:233-237 | appending a point to one list adds exactly that point to the three lists taken together |
| Splitter.Checkerboard | shapefile_utils.py:224-244 | the lengths of the three lists sum to the input length |
| Splitter.CheckerboardPartition | shapefile_utils.py:224-244 | the three lists together hold every input point exactly as often as the input does |
| Splitter.CheckerboardSelects | shapefile_utils.py:224-244 | each checkerboard list is exactly the input's points of that part, in input order |
| Splitter.CheckerboardExactlyOne | shapefile_utils.py:224-244 | each input point is in a list exactly when its cell classifies it into that list's part |
| Splitter.Slice | shapefile_utils.py:256-258 | a slice is never longer than the list |
| Splitter.SlicesPartition | shapefile_utils.py:256-258 | with non-negative sizes, `[:t]`, `[t:t+v]` and `[t+v:]` concatenate back to the list; the first has `min(t, N)` elements and the second `min(v, N - len(first))` |
| Splitter.SplitSize | shapefile_utils.py:252-253 | a non-negative ratio gives a non-negative size |
| Splitter.RandomSplit | shapefile_utils.py:246-260 | with non-negative ratios, train, val and test concatenate to the shuffled list. Train has `min(train_size, N)` points and val has `min(val_size, N - len(train))` |
| Splitter.CreateTrainValTest | shapefile_utils.py:220-263 | it fails exactly for a method other than the two supported ones (`ValueError` with the fixed message) or for a checkerboard with `degrees == 0` and at least one point (division by zero). Otherwise, for the checkerboard method or when both ratios are non-negative, the three lists are a rearrangement of the input |
| Splitter.CheckerboardIgnoresRatiosAndSeed | shapefile_utils.py:220-244 | the checkerboard result depends on neither the ratios nor the shuffle |
| Splitter.CheckerboardAllTrain | shapefile_utils.py:224-244 | when every point lies in a train cell, train is the whole input in input order, and validation and test are empty |
| Splitter.CheckerboardCorners | shapefile_utils.py:224-244 | with one-degree cells the corners (0,0), (0,1), (1,0) go to train and (1,1) to validation |
| Decimal.NatToString | download_tiles.py:68-70 | the decimal form of a natural number is a non-empty string of digits without a leading zero |
| Decimal.IntToString | download_tiles.py:68-70 | `str(n)` starts with a minus sign exactly when `n` is negative and with a digit otherwise, and digits follow |
| Decimal.IntToStringRoundTrip | download_tiles.py:68-70 | parsing `str(n)` gives back `n`, so different numbers give different strings |
| Tiles.FormatStringNoPlaceholders | download_tiles.py:67-71 | a template without `{x}`, `{y}` or `{z}` comes back unchanged |
| Tiles.FormatStringFillsAll | download_tiles.py:67-71 | no `{x}`, `{y}` or `{z}` is left in the result |
| Tiles.NoPlaceholderAfter | download_tiles.py:68-70 | replacing one placeholder by a decimal string removes all its occurrences and creates no new placeholder |
| Tiles.FormatStringIsFill | download_tiles.py:67-71 | the three successive replacements give the same string as one pass that replaces every placeholder by its value, so later replacements never touch inserted digits |
| Tiles.WorldImageryUrl | download_tiles.py:54-55 | both ArcGIS templates produce the server prefix followed by `str(zoom)/str(y)/str(x)`, row before column |
| Tiles.OpenStreetMapUrl | download_tiles.py:56 | the OpenStreetMap template produces `https://tile.openstreetmap.org/` + `str(zoom)/str(x)/str(y)` + `.png` |
| Tiles.Osgb1888Url | download_tiles.py:57 | the 1888 Ordnance Survey template produces the column-first path followed by `.jpg` and the unchanged access key |
| Retry.DownloadTile | download_tiles.py:73-86 | at most `max_retries` attempts are made (none when it is not positive). The download succeeds exactly when some attempt within the limit succeeds; it stops at the first success and otherwise makes all attempts. There is one pause between consecutive attempts and none after the last |
| Retry.FourFailuresThenSuccess | download_tiles.py:73-86 | with the default limit of 5, four failures then a success take five attempts and four pauses |
| Retry.AllFail | download_tiles.py:79-86 | with the default limit, five failures take five attempts and four pauses, and the function gives up without raising |

## Left out

- Geometry and coordinate-system work is not modelled, because it is a thin wrapper over shapely, geopandas and pyproj. This covers `create_rectangle_shapefile`, `create_polygon`, `intersect_shapefiles` and `lat_lon_to_epsg`. Containment is an abstract test on a sequence of rows.
- `get_largest_geometry`: its result is pandas `idxmax` over areas computed by a library, neither of which is visible.
- The random number generator, `random.uniform` and `random.shuffle`: these become inputs. The draws are a candidate stream (one per seed for the workers), and the shuffle is any permutation of the points.
- The `tqdm` progress bars and the `print` calls are presentation only.
- Process start, `join` and the queues are concurrency plumbing. Only the shares, seeds, the progress sum and the concatenation are modelled, with queue order left arbitrary.
- Sampler.SampleWithin: the candidate stream is finite, so when it runs out the model reports an unfinished loop, whereas the source would keep drawing.
- Sampler.WorkerSeeds: `streamOf` is an arbitrary function of the seed, so the model claims nothing about the workers' streams being distinct. CPython's `random.seed` seeds from the absolute value of an integer, so for a negative `seed` the workers seeded `s` and `-s` replay the same stream.
- Sampler.SampleParallel: when a worker's finite stream runs out the model returns `None`, where the source would wait forever on the progress queue.
- `deg2num`: floating-point arithmetic with `tan` and `asinh`.
- Floating-point rounding in `v / degrees` and `ratio * N` is not modelled; both are exact reals.
- Splitter.CreateTrainValTest: only the first two components of `ratios` are read by the source, so the model takes a pair. NaN and infinite values are not modelled.
- Splitter.CreateTrainValTest: the random method shuffles the caller's list in place (shapefile_utils.py:248). The model does not return that mutation: after a random split the caller's points are in the order `shuffled`. With a negative ratio the lists need not be a rearrangement of the input, because Python's negative slice bounds count from the end.
- Splitter.RandomSplit: the partition and length facts are stated for non-negative ratios only. Negative ratios are still computed with Python's slice rules, but nothing is proved about them.
- All folium and matplotlib output (`save_folium_map`, `folium_group_points`, `save_folium_map_train_val_test`, `points_to_gdf`) is left out, as are the scripts generate_points.py and create_shapefile_scotland.py, which are argument parsing and library calls.
- The curl call, `time.sleep`, the thread pool and directory creation are I/O. Only the attempt count and the number of pauses are kept; the total pause is that number times `retry_delay` (default 2 seconds).
- Retry.DownloadTile: a negative `retry_delay`, which would make `time.sleep` raise after the first failure, is not modelled.
- `main` and argument parsing in download_tiles.py, and the file path each tile is saved to.
