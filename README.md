# Handwritten Japanese recognition: upload validation and batch-size grouping

This project models, in Dafny, the two pieces of sequential logic in a small
handwritten-character recognition demo. The demo is a Flask web server that
classifies an uploaded image into one of the ten KMNIST classes. Beside it sit
plotting scripts that compare training runs.

- `upload.dfy`, module `Upload` (from `app.py`). It models which file names the
  upload route accepts (`allowed_file` and `ALLOWED_EXTENSIONS`). It models the
  route's chain of early returns: no `file` part, then an empty file name, then
  a disallowed extension, each answered with status 400. It also models how the
  shown label is chosen, as the class at the first largest of the ten softmax
  probabilities. The form's file fields are a map from field name to file name.
  The probabilities are an abstract sequence compared by any total preorder.
- `batch_size_grouping.dfy`, module `BatchSizeGrouping` (from
  `visualization/different_batch_size_visualization.py`). It models
  `read_and_process_csv`. The trailing `%` signs are stripped from both accuracy
  columns of the table, in place (an `array` of rows). The rows are then grouped
  by batch size: a loop fills an insertion-ordered dictionary, visiting the
  distinct batch sizes in order of first appearance and storing under each the
  rows that carry it, in their original order.

The file-name check is a pure predicate. It is tied to its partners. A
split/join round trip characterises "the text after the last dot". A lemma
shows that names which agree up to case get the same verdict. Another reduces
every name to its last extension. The grouping method is proved against
specification functions (`Unique`, `Select`, `Regroup`). Lemmas about those
functions state what the script relies on: the keys are in first-appearance
order, each group keeps the rows' order, and the groups partition the rows.

## Model

| member | source | states |
|---|---|---|
| `Upload.RFind` | app.py:67 | The position of the last occurrence of a character, or -1 exactly when it does not occur; no later position holds it |
| `Upload.RSplitOnce` | app.py:67 | Splitting at the last '.': a name without '.' stays whole; otherwise stem + "." + extension gives the name back, and the extension holds no '.' |
| `Upload.RSplitOnceOfJoin` | app.py:67 | Splitting stem + "." + ext, where ext has no '.', gives back exactly [stem, ext], so the extension is the text after the last dot |
| `Upload.AllowedFileSplit` | app.py:66-67 | For any stem and any dot-free extension, the name is allowed exactly when the lower-cased extension is in ALLOWED_EXTENSIONS. Dots in the stem do not matter, so a.tar.png passes and a.png.exe fails, and an empty stem (.png) is allowed |
| `Upload.LowerChar` | app.py:67 | ASCII lower-casing of one character: the result is never an upper-case letter, an upper-case letter goes to the matching lower-case letter, and every other character is left alone |
| `Upload.Lower` | app.py:67 | ASCII `str.lower` on a name: same length, each upper-case letter becomes the matching lower-case letter (32 code points on), no upper-case letter is left, and every other character is kept at its place |
| `Upload.LowerCharIs` | app.py:67 | A character lower-cases to a given lower-case letter exactly when it is that letter or its upper-case form |
| `Upload.AllowedFile` | app.py:66-67 | A name passes exactly when it contains a '.' and the lower-cased text after its last '.' is in ALLOWED_EXTENSIONS; every name that passes has at least four characters |
| `Upload.NoDotNotAllowed` | app.py:67 | A name with no '.', the empty name included, is never allowed |
| `Upload.AllowedExtensionsExactly` | app.py:11 | The raw extensions that pass after lower-casing are exactly the three-letter p/P n/N g/G and j/J p/P g/G and the four-letter j/J p/P e/E g/G, in any mix of case, and nothing else |
| `Upload.ExtensionExamples` | app.py:11 | JPG, Png and jpeg pass after lower-casing. The empty extension (a trailing '.'), exe, gif and jpe do not |
| `Upload.UpperJpgAllowed` | app.py:66-67 | X.JPG is allowed |
| `Upload.MixedCasePngAllowed` | app.py:66-67 | y.Png is allowed |
| `Upload.DottedStemAllowed` | app.py:66-67 | a.tar.png is allowed: only the text after the last dot counts |
| `Upload.EmptyStemAllowed` | app.py:66-67 | .png is allowed, although nothing comes before the dot |
| `Upload.HiddenExtensionRefused` | app.py:66-67 | a.png.exe is refused |
| `Upload.TrailingDotRefused` | app.py:66-67 | x. is refused: its extension is empty |
| `Upload.AllowedFileIgnoresCase` | app.py:67 | Two names that agree character by character up to ASCII case are both allowed or both refused |
| `Upload.AllowedFileOfLower` | app.py:67 | Lower-casing the whole name first never changes the verdict |
| `Upload.ValidateUpload` | app.py:83-143 | A missing file part gives NoFilePart whatever else holds. A present but empty name gives NoSelectedFile. Accept holds exactly when the part exists and its name passes the check. InvalidType holds exactly for a non-empty name that fails it |
| `Upload.ArgMax` | app.py:117 | The index picked is a largest entry, and every earlier entry is strictly smaller: the first maximum |
| `Upload.PredictedClass` | app.py:117-119 | For the ten softmax probabilities, the label shown is always one of CLASSES: the one at a first maximum of the outputs |
| `Upload.HandleUpload` | app.py:74-143 | The route predicts exactly when validation accepts, and the label is the class at the first largest probability, so it is in CLASSES. Every rejection has status 400, with message "No file part", "No selected file" or "Invalid file type", each exactly in its own case |
| `BatchSizeGrouping.RStripPercent` | visualization/different_batch_size_visualization.py:21-22 | The result is a prefix of the input, only '%' follows it in the input, and it does not end in '%' |
| `BatchSizeGrouping.RStripPercentUnique` | visualization/different_batch_size_visualization.py:21-22 | Those three properties determine the result: nothing but trailing '%' signs is removed |
| `BatchSizeGrouping.RStripPercentStable` | visualization/different_batch_size_visualization.py:21-22 | A string with no trailing '%' is unchanged, and stripping is idempotent |
| `BatchSizeGrouping.RStripPercentOfValue` | visualization/different_batch_size_visualization.py:21-22 | Any number of '%' signs appended to a value that does not end in '%' is removed, giving the value back |
| `BatchSizeGrouping.StripAccuracy` | visualization/different_batch_size_visualization.py:21-22 | Both accuracy columns of a row are stripped and the epoch, batch size and loss columns are left unchanged |
| `BatchSizeGrouping.StripAccuracyColumns` | visualization/different_batch_size_visualization.py:21-22 | Rewrites every row of the table in place to its stripped form |
| `BatchSizeGrouping.BatchSizes` | visualization/different_batch_size_visualization.py:28 | The batch_size column: one entry per row, the i-th being the i-th row's batch size |
| `BatchSizeGrouping.Unique` | visualization/different_batch_size_visualization.py:28 | The distinct batch sizes: the same values as the column, none twice, and no more of them than rows |
| `BatchSizeGrouping.UniqueInFirstAppearanceOrder` | visualization/different_batch_size_visualization.py:28 | The distinct batch sizes come in order of first appearance in the rows. This is the dictionary's key order, and the plotting loop (line 57) draws curves and legends in it |
| `BatchSizeGrouping.Select` | visualization/different_batch_size_visualization.py:33 | The filtered rows are rows of the table with that batch size, and every such row is among them |
| `BatchSizeGrouping.Positions` | visualization/different_batch_size_visualization.py:33 | The positions the boolean mask keeps: exactly the row positions carrying that batch size, each in range, in strictly increasing order |
| `BatchSizeGrouping.SelectKeepsOrder` | visualization/different_batch_size_visualization.py:33 | The filter's result has one row per kept position, and its t-th row is the row at the t-th kept position, so the original relative order is kept and nothing else is added |
| `BatchSizeGrouping.EmptyDict` | visualization/different_batch_size_visualization.py:25 | The empty dictionary `{}`: no keys, no entries, and well formed |
| `BatchSizeGrouping.Dict.Insert` | visualization/different_batch_size_visualization.py:36 | Python dict assignment: the entry is set, a new key goes to the end of the key order and an existing key keeps its place. Keys stay unique and match the entries |
| `BatchSizeGrouping.GroupByBatchSize` | visualization/different_batch_size_visualization.py:25-36 | The loop builds a dictionary with these properties. Its keys are the distinct batch sizes in first-appearance order, and a value is a key exactly when some row carries it. Each key maps to the rows with that batch size in their original order. The groups together are a permutation of the rows. There are no more groups than rows, and no rows give an empty dictionary |
| `BatchSizeGrouping.ReadAndProcessCsv` | visualization/different_batch_size_visualization.py:4-38 | Strips the accuracy columns in place, then groups the stripped rows as GroupByBatchSize does |
| `BatchSizeGrouping.GroupsPartitionRows` | visualization/different_batch_size_visualization.py:28-36 | Concatenated in key order, the groups are a permutation of the rows. So each row lands in exactly one group, and the group sizes add up to the number of rows |

## Left out

- HTTP and the file system: Flask routing, `render_template`, `url_for`, `send_from_directory`, `file.save`, `os.makedirs`, the upload-folder setup and the start-up permission test. The 500 responses for failures while saving, preprocessing or predicting are not modelled; a passed upload goes straight to its prediction.
- `secure_filename`: a werkzeug library call whose source is not part of this model. The checks run on the name as sent, as the route does.
- The 16 MB request limit (`MAX_CONTENT_LENGTH`): werkzeug checks it when the route first reads `request.files` (app.py:79), inside the route's outer `try`, so an oversize upload ends in the catch-all response of app.py:145-147 with status 500. This path is not modelled.
- The `file` operand of `if file and allowed_file(...)`: a werkzeug file object is truthy exactly when its name is non-empty, which the check just before already guarantees. It is not modelled separately.
- `request.files` as a multi-valued mapping: a field sent several times is modelled by its first file, the one `request.files['file']` returns.
- Upload.Lower: only ASCII letters are lower-cased; Python's `str.lower` also lower-cases other alphabets, which cannot change whether the extension is png, jpg or jpeg (see the next line).
- Upload.AllowedFileIgnoresCase: `str.lower` is modelled as ASCII lower-casing. Full Unicode lower-casing sends no other character to one of the letters of png, jpg or jpeg, so the verdicts agree. Lower-casing non-ASCII names is not modelled.
- The network itself (`ConvNet`, weight loading), `preprocess_image`, `softmax` and the confidence percentage: these are floating-point library calls. The softmax probabilities are an abstract sequence under a total preorder.
- Upload.ArgMax: NaN outputs are not modelled. A total preorder has no incomparable values.
- `pd.read_csv`, `df['epoch'].astype(str)` and `.astype(float)` on the stripped accuracies: CSV input and number parsing. Rows keep the batch size as an integer and every other column as text.
- pandas NaN keys: a NaN batch size would give an empty group, because NaN is unequal to itself. Batch sizes are integers with ordinary equality here.
- `plot_batch_size_comparison` and the script's module-level calls with a fixed path: matplotlib rendering.
- `static/js/main.js` and `static/js/result.js`: browser UI code (DOM, `fetch`, `FileReader`, timers, dialogs). Its MIME-type check depends on the browser-supplied `file.type`.
- `visualization/DifferentLossFuntion(1).py`: the sibling script for loss functions is not part of this model.
