# Upload validation and label formatting of the image-classifier web app

The application is a small Flask service. A browser uploads an image to
`/predict`. The handler validates the upload and stores it. It then runs a
pretrained MobileNetV2 ImageNet classifier on it and renders the top-5
predictions. This project models the part of that handler that is plain
logic, all of it in `app.py`:

- `allowed_file`, the extension check. A name is accepted when it contains
  a dot and the text after its last dot, lower-cased, is one of `png`,
  `jpg`, `jpeg`, `gif`, `bmp`, `webp`.
- The validation prefix of `predict`. It runs three ordered checks, and each
  failure redirects home with its own flash message: no `image` part, an
  empty filename, a disallowed extension.
- The results comprehension. It turns each decoded `(class id, label,
  score)` triple into a record whose label is
  `label.replace("_", " ").title()`.

The modules are:

- `Text` (text.dfy): ASCII letter case. It provides `str.lower()` and the
  per-character upper/lower mapping that `str.title()` uses.
- `Upload` (upload.dfy): `str.rsplit(".", 1)`, `allowed_file`, the
  allow-set, and the request decision `Decide`. `Decide` returns
  `Reject(message)` or `Accept(filename)`.
- `Results` (results.dfy): `str.replace`, `str.title()`, the display
  label, and the result records.
- `Predict` (predict.dfy): the handler end to end. What storing, decoding
  and classifying the upload yield is a parameter: either the decoded top-5
  or nothing, when one of those steps raised. The response is a redirect
  with a flash message, the rendered page, or a server error.

Every function is pure, as the modelled code is: the source has no loops
and no mutated state in these parts. Scores are an opaque type parameter.
The handler only passes them through `float()`, which widens a NumPy
float32 without changing its value.

## Model

| member | source | states |
|---|---|---|
| `Text.Lower` | app.py:28 | `.lower()`: same length; every upper-case letter becomes its lower-case letter; every other character is kept |
| `Upload.RSplitOnce` | app.py:28 | `rsplit(sep, 1)`: one part (the whole string) exactly when `sep` does not occur; otherwise two parts `before + sep + after` where `after` holds no `sep`, i.e. the split is at the last occurrence |
| `Upload.AllowedFile` | app.py:27-28 | a filename without a dot is always rejected |
| `Upload.RSplitOnceLast` | app.py:28 | splitting `p + sep + e` with `e` free of `sep` gives back exactly `[p, e]`, whatever `p` contains |
| `Upload.LastExtensionDecides` | app.py:28 | for a dot-free `e`, `p + "." + e` is allowed exactly when `lower(e)` is in the allow-set, whatever the prefix |
| `Upload.AllowedFileExactly` | app.py:16-28 | `allowed_file(f)` holds exactly when `f` has a last dot and the lower-cased text after it is one of png, jpg, jpeg, gif, bmp, webp |
| `Upload.AllowedFileIgnoresCase` | app.py:28 | two names that differ only in letter case get the same verdict |
| `Upload.DotEdgeCases` | app.py:28 | `".png"` is accepted; `"a."` and `"png"` are rejected |
| `Upload.DoubleExtensionCases` | app.py:28 | `"x.png.exe"` is rejected and `"x.exe.png"` accepted: only the last extension counts |
| `Upload.UpperCaseCases` | app.py:28 | `"x.tar.PNG"` and `"X.JPG"` are accepted |
| `Upload.Decide` | app.py:44-55 | a missing `image` part gives "No file part in request." whatever else the form holds; otherwise an empty name gives "No file selected."; otherwise a disallowed extension gives the unsupported-type message; the request is accepted, with the submitted name, exactly when all three checks pass |
| `Upload.AcceptedHasAllowedExtension` | app.py:44-58 | every accepted upload has a non-empty name whose lower-cased text after the last dot is in the allow-set |
| `Upload.RejectionIdentifiesCheck` | app.py:44-55 | for a rejected request, each flash message is produced by exactly one failed check, so the message tells which check failed |
| `Results.ReplaceChar` | app.py:67 | `.replace("_", " ")`: same length; every occurrence of the target becomes the replacement; every other character is kept |
| `Results.TitleFromSpec` | app.py:67 | the title-case scan keeps the length and every character up to case; a letter is upper case exactly when the character before it in the input is not a letter |
| `Results.Title` | app.py:67 | `.title()` as CPython's scan computes it, where "previous is cased" is taken from the input character. Its result meets the separate title-case definition `IsTitleOf`; with `TitleOfUnique` the two agree both ways |
| `Results.TitleOfUnique` | app.py:67 | any string meeting the title-case definition is `.title()` of the input, so the definition and the function agree both ways |
| `Results.FormatLabel` | app.py:67 | the displayed label has the raw label's length and contains no `_`. Each `_` shows as a space and other non-letters are unchanged. Each letter stays the same letter, and is upper case exactly when it is first or follows a non-letter of the raw label |
| `Results.DisplayLabelUnique` | app.py:67 | the display rule above admits exactly one string, the formatted label |
| `Results.FormatResults` | app.py:67-68 | one record per decoded triple, in the same order and number; each record keeps the id and the score and carries the formatted label |
| `Results.FormatResultsAppend` | app.py:67-68 | formatting is entry by entry: formatting a concatenation is the concatenation of the formatted parts |
| `Results.FormatLabelOneWord` | app.py:67 | `"tabby"` is shown as `"Tabby"` |
| `Results.FormatLabelTwoWords` | app.py:67 | `"sea_lion"` is shown as `"Sea Lion"` |
| `Results.FormatLabelApostrophe` | app.py:67 | `"o'neil"` is shown as `"O'Neil"`: a letter after an apostrophe is upper-cased, as `str.title()` does |
| `Predict.HandlePredict` | app.py:44-68 | a redirect happens exactly when validation rejects, and it carries one of the three validation messages. After acceptance, the page is rendered when storing, decoding and classifying succeed, and the request ends in a server error when one of them raises. Anything not redirected has an allowed extension. A rendered upload is the submitted name, and the page shows as many results as were decoded |
| `Predict.RejectedIgnoresClassifier` | app.py:44-65 | a rejected request is answered by a redirect with its validation message; the response does not depend on what storing and classifying would have produced |
| `Predict.RenderedExactly` | app.py:44-68 | results are shown exactly when the `image` part is present, its name is non-empty, `allowed_file` holds and the later steps succeed. The shown entries are the decoded ones in order, with ids and scores unchanged |

## Left out

- Flask routing, `render_template`, `flash`, `redirect` and `url_for` (app.py:38-40, app.py:70-73) are web-framework I/O. A redirect is modelled as the flash message it carries, and the result page as the data it is given.
- Loading and running the network (app.py:25, app.py:64-65) is left out. This covers `MobileNetV2`, `model.predict` and `decode_predictions`, an opaque floating-point model from a third-party library. Its decoded top-5, or the absence of one when a step raised, is a parameter of `Predict.HandlePredict`. The model does not distinguish which step failed. In the source, every such failure is an uncaught exception and ends as a generic server error.
- `prepare_image` (app.py:30-36) is left out. It is image decoding, resizing and float normalisation done by Pillow, NumPy and Keras.
- Storing the upload (app.py:58-60) is left out. This covers `secure_filename` (a werkzeug function whose source is not part of this model), the wall-clock timestamp from `datetime.utcnow()`, and `file.save`. `Predict.HandlePredict` carries the accepted submitted name instead of the stored name derived from it, so the page's `image_url` and `filename` are not modelled.
- Both file-serving routes (app.py:75-83) and process set-up (app.py:15-22, app.py:87) are library I/O.
- `request.files` is a multi-valued dictionary. The model keeps one filename per form field, the one that `request.files["image"]` returns.
- Text.Lower: maps only ASCII letters, where Python's `str.lower()` uses full Unicode case mapping. This does not change the verdict of `Upload.AllowedFile`. Only two non-ASCII characters lower-case to text containing an ASCII letter: U+212A becomes `k`, and U+0130 becomes `i` plus a non-ASCII combining mark. No allowed extension contains `k` or any non-ASCII character.
- Results.FormatLabel: treats every non-ASCII character as uncased and keeps it unchanged. Python's `str.title()` applies Unicode title and lower case mappings, and these can also change the length. The ImageNet labels the handler formats are ASCII.
- The ordering, the bound of five and the score range of the decoded predictions are properties of `decode_predictions`, not of this code. The model promises only that formatting preserves whatever order and length it receives.
- `str.title()` is not "capitalize each word": a letter after an apostrophe, hyphen or digit also starts a word, and every other letter is lower-cased (`Results.FormatLabelApostrophe`).
