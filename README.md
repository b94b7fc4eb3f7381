# test-ai: question generation behind a subscription gate, modelled in Dafny

The system is an Express back end. A signed-in user uploads study material
(a PDF, an image, a YouTube link or plain text); it is turned into text and
handed to a question generator. Uploads are open only to users with a
current trial or paid plan, and every user may start at most one
three-day trial. Users register and log in with an email and a password
and authenticate with a bearer token.

This project models the core of that system and proves what it promises.

- **Text extraction** (`services/uploadServices.js`):
  - `Raster` models `convertToRGBA` as a method over arrays. It is proved
    against a specification function on the input bytes, with round trips
    back to the pixel data.
  - `PdfExtract` models `pdfToText` as the two nested loops with their
    accumulators. The page's images are counted, converted and described,
    with the 100-image cap. The loops are proved against a recursive
    specification function.
  - `Transcript` models `linkToText`: the locale fallback chain
    en-US → en-GB → en-IN → en, and the space-joined segments.
- **Upload routes** (`routes/uploadRoutes.js`), in `UploadRoutes`:
  - A class whose fields are the responses sent, the files in the temp
    directory and the calls made to collaborators.
  - Its methods are the four handlers. Each states the complete new state
    for every branch: missing input, rejected extension, thrown error and
    success.
  - The temp file is deleted once a file was received and the request finishes.
- **Subscriptions** (`services/subscriptionServices.js`,
  `routes/subscriptionRoutes.js`, `middlewares/subscriptionMiddleware.js`):
  - `SubscriptionServices` decides the four-valued status from the
    subscriptions table and the current time, and `SetTrial` inserts a trial.
  - The `/status` and `/trial` handlers live in `SubscriptionRoutes` and the
    gate in `SubscriptionMiddleware`.
  - The lemmas show that a trial can be started once only, that it admits
    the user for its three days, and that other users are unaffected.
- **Accounts** (`services/authServices.js`, `middlewares/authMiddleware.js`):
  - `AuthServices` covers registration, login and account deletion over the
    `Database` class.
  - `AuthMiddleware` models the bearer-token check, including JavaScript's
    first-occurrence `replace`.

Outside collaborators become function-typed parameters. These are pdf.js
loading, sharp's PNG encoding, the vision model, the transcript service,
`createQuestions`, bcrypt and jsonwebtoken. A failing database is the
`outage` field of `Database`: while it is set, every query throws its
message. Time is a parameter `now`, in milliseconds.

Support modules:
- `Wrappers`: Option and Result.
- `Text`: JavaScript `join(" ")`, first-occurrence `replace` and ASCII
  `toLowerCase`.
- `Paths`: Node's POSIX `path.extname`.
- `Http`: a status with a JSON body, or `{ errors: [...] }`.

## Model

| member | source | states |
|---|---|---|
| Raster.ConvertToRgba | services/uploadServices.js:60-92 | for sample data of any length, the array returned holds exactly `Canonical`'s bytes for the image's kind (grayscale, RGB, or copied through) |
| Raster.Canonical | services/uploadServices.js:60-92 | defines the bytes `convertToRGBA` returns for each kind: grey pixels padded with zeros to width*height*4; whole RGB triples with alpha 255 followed by the samples of a trailing partial triple; or the data itself |
| Raster.ExpandGray | services/uploadServices.js:63-71 | the grayscale buffer has width*height*4 bytes: each source byte becomes an opaque grey pixel; the pixels past the data stay zero; writes beyond the buffer are dropped |
| Raster.ExpandRgb | services/uploadServices.js:72-80 | the buffer of truncated length (data.length / 3) * 4 holds each whole RGB triple as the same colour with alpha 255, in order, then the samples of a trailing partial triple, whose other writes fall past the end |
| Raster.CopyRgba | services/uploadServices.js:81-89 | any other kind, of any length, is copied through byte for byte; the writes of a trailing partial pixel past the end are dropped |
| Raster.WriteGray | services/uploadServices.js:67-70 | pixel i becomes (v, v, v, 255) after the unchanged bytes before it, and every later byte keeps its value |
| Raster.WriteClipped | services/uploadServices.js:76-87 | the bytes of a pixel written at offset j that fit in the typed array land there, the rest are dropped; the bytes before j and every byte after the pixel keep their value |
| Raster.Sample | services/uploadServices.js:77-78 | defines a sample read as the typed array stores it: the byte itself, or 0 for `undefined` past the end of the data |
| Raster.WholeTripleStep | services/uploadServices.js:75-80 | one iteration over a whole triple extends the buffer by that triple's opaque pixel |
| Raster.PartialTripleStep | services/uploadServices.js:74-80 | the iteration over a trailing partial triple lands exactly its samples, and the buffer is then complete |
| Raster.WholeTriplesDone | services/uploadServices.js:74-80 | when the data is whole triples, the loop ends with the buffer filled |
| Raster.CopiedPixel | services/uploadServices.js:83-88 | the part of a copied pixel that fits in the buffer is the next samples |
| Raster.GrayPixels | services/uploadServices.js:66-71 | grayscale expansion yields four bytes per input byte |
| Raster.RgbPixels | services/uploadServices.js:75-80 | RGB expansion yields four bytes per three input bytes |
| Raster.GrayPixelAt | services/uploadServices.js:67-70 | pixel k of the expansion is (v, v, v, 255) for the k-th byte v |
| Raster.RgbPixelAt | services/uploadServices.js:76-79 | pixel k of the expansion is (r, g, b, 255) for the k-th triple |
| Raster.CanonicalGray | services/uploadServices.js:63-71 | grayscale output length is width*height*4; pixels with data are grey and opaque, the rest are zero |
| Raster.CanonicalRgb | services/uploadServices.js:72-80 | RGB output length is |data|/3*4 + |data|%3; each whole triple's pixel carries it with alpha 255, and the samples of a trailing partial triple close the buffer |
| Raster.WholeTriplePixel | services/uploadServices.js:76-79 | pixel k of the whole-triple part is triple k with alpha 255 |
| Raster.CanonicalCopy | services/uploadServices.js:81-89 | the path for every other kind returns its input unchanged, whatever its length |
| Raster.GrayRoundTrip | services/uploadServices.js:66-71 | reading back the red channel of a grey expansion gives the original bytes |
| Raster.RgbRoundTrip | services/uploadServices.js:75-80 | dropping the alpha channel of an RGB expansion gives the original bytes |
| Raster.GrayCanonicalRoundTrip | services/uploadServices.js:63-71 | when the data holds exactly width*height bytes, the grey buffer's red channel is the data |
| Raster.Zeros | services/uploadServices.js:65 | a freshly allocated typed array is n zero bytes |
| Raster.RedChannel | services/uploadServices.js:67 | inverse view of the grey expansion: one byte per four |
| Raster.DropAlpha | services/uploadServices.js:76-78 | inverse view of the RGB expansion: three bytes per four |
| PdfExtract.PdfToText | services/uploadServices.js:120-184 | the text built by the page loop is `Extract(pages, 0)`: the extraction of the document starting from zero images counted |
| PdfExtract.Extract | services/uploadServices.js:130-181 | defines the text of a page list from a given image count: each page's output in page order, the count advanced page by page |
| PdfExtract.PageOutput | services/uploadServices.js:134-180 | defines one page's contribution: its native text, then its image text only while fewer than 100 images were counted |
| PdfExtract.NativeText | services/uploadServices.js:134 | defines a page's native text: its text items joined by spaces, then a newline |
| PdfExtract.ImageText | services/uploadServices.js:142-178 | defines the image text: for each painted image with data, in operator order, its description followed by a newline |
| PdfExtract.Describe | services/uploadServices.js:149-172 | defines one image's description: the vision model applied to the encoded canonical RGBA buffer |
| PdfExtract.ImageCount | services/uploadServices.js:143-168 | defines how many images a page's operators paint with data, each raising the counter by one |
| PdfExtract.Paints | services/uploadServices.js:143-148 | defines an operator that paints an image: paintImageXObject naming an object that resolved with data |
| PdfExtract.Step | services/uploadServices.js:137-168 | defines the counter after a page: unchanged at or above 100, otherwise raised by the page's image count |
| PdfExtract.FinalCount | services/uploadServices.js:127-181 | defines the counter after a run of pages |
| PdfExtract.AllNativeText | services/uploadServices.js:134 | defines the native text of every page, in page order |
| PdfExtract.PageText | services/uploadServices.js:131-180 | one pass of the page loop yields the page's native text, then its image text unless 100 images were already counted, and advances the counter as `Step` does |
| PdfExtract.PageImages | services/uploadServices.js:140-180 | the operator loop appends each painted image's description plus a newline, and raises the counter once per image with data |
| PdfExtract.ExtractUnfold | services/uploadServices.js:130-181 | extracting from page i is that page's native text, then its image text unless the cap was reached, then the rest from the new count |
| PdfExtract.ExtractAppendPage | services/uploadServices.js:130-181 | appending a page appends its native text, plus its image text exactly when fewer than 100 images were counted before it |
| PdfExtract.CapReachedNativeOnly | services/uploadServices.js:136-137 | once 100 images are counted, every later page contributes only its native text and the count stays put |
| PdfExtract.NoImagesNoText | services/uploadServices.js:141-180 | a page painting no image with data adds no image text |
| PdfExtract.NoImagesNativeOnly | services/uploadServices.js:130-181 | a document without image data extracts to its pages' native text in order |
| PdfExtract.BudgetBound | services/uploadServices.js:137 | the image counter never decreases and overshoots the cap by at most one page's images: final count <= max(start, 99 + m) |
| PdfExtract.HelloWorld | services/uploadServices.js:134 | a one-page document with items "Hello" and "World" and no images extracts to "Hello World\n" |
| Transcript.Texts | services/uploadServices.js:27 | the segments' texts, one per segment, in order |
| Transcript.LinkToText | services/uploadServices.js:7-29 | defines linkToText: the fallback chain's segments joined by spaces, or its error |
| Transcript.Fallback | services/uploadServices.js:9-25 | defines the try/catch chain: the first locale whose request succeeds, else the last locale's error |
| Transcript.Attempted | services/uploadServices.js:9-25 | defines the locales requested: up to and including the first success, or all of them |
| Transcript.FirstSuccessWins | services/uploadServices.js:7-29 | the first locale whose request succeeds decides the text; the locales up to it are tried in order and no later one is |
| Transcript.FirstSuccessFrom | services/uploadServices.js:9-25 | the fallback chain over any locale list returns the first success and stops there |
| Transcript.AllLocalesFail | services/uploadServices.js:18-22 | when all four locales fail, all four are tried and the error of the "en" attempt is rethrown |
| Transcript.AllFailFrom | services/uploadServices.js:9-25 | a chain in which every request fails tries every locale and ends with the last error |
| Transcript.SucceedsIffSomeLocale | services/uploadServices.js:7-29 | linkToText succeeds if and only if some locale has a transcript |
| Transcript.MinimalSuccess | services/uploadServices.js:9-25 | any success has a first success at or before it |
| Transcript.SegmentsRecoverable | services/uploadServices.js:27 | when no segment contains a space, splitting the text on spaces gives the segments' texts back |
| Transcript.UkFallbackExample | services/uploadServices.js:10-13 | a US failure and a UK transcript ["a","b"] give "a b" after exactly two requests |
| Text.SplitJoin | services/uploadServices.js:27 | join(" ") of space-free strings is undone by splitting on spaces |
| Text.Join | services/uploadServices.js:27 | defines JavaScript's join(" "): empty for no pieces, the pieces separated by single spaces otherwise |
| Text.JoinSplit | services/uploadServices.js:27 | splitting on spaces and joining with a space gives the string back |
| Text.Split | services/uploadServices.js:27 | the source never splits: this is JavaScript's split(" "), kept as the reference inverse of the join(" ") on this line; it yields at least one piece |
| Text.SplitFirstPiece | services/uploadServices.js:27 | the first space after a space-free piece is right after that piece |
| Text.NoSpaceNotFound | services/uploadServices.js:27 | a space-free string has no space to split at |
| Text.FindFrom | middlewares/authMiddleware.js:8 | the index found is an occurrence of the pattern with none before it; when none is found there is no occurrence |
| Text.FindFirst | middlewares/authMiddleware.js:8 | defines indexOf as an option: the search from position 0 |
| Text.StripFirst | middlewares/authMiddleware.js:8 | replace with "" leaves the string alone when the pattern is absent and otherwise removes exactly one occurrence's length |
| Text.FirstOccurrence | middlewares/authMiddleware.js:8 | an occurrence with none before it is the one found |
| Text.StripLeading | middlewares/authMiddleware.js:8 | removing a leading pattern leaves exactly the rest |
| Text.StripKeepsSurroundings | middlewares/authMiddleware.js:8 | removing the first occurrence keeps what is before and after it |
| Text.LowerChar | routes/uploadRoutes.js:43 | the lowered character is not upper case, and non-upper-case characters are unchanged |
| Text.Lower | routes/uploadRoutes.js:43 | the model of toLowerCase lowers each ASCII capital in place and keeps the length |
| Text.LowerIdempotent | routes/uploadRoutes.js:43 | lowering twice is lowering once |
| Paths.Extname | routes/uploadRoutes.js:43 | the extension is empty or a dot followed by neither a dot nor a slash |
| Paths.ExtnameOfName | routes/uploadRoutes.js:43 | for a slash-free name stem.suffix with a dot-free suffix, extname is "." + suffix |
| Paths.TrimTrailingSlashes | routes/uploadRoutes.js:43 | trailing slashes are removed and nothing else |
| Paths.LastComponent | routes/uploadRoutes.js:43 | the last path component is a slash-free suffix of the path |
| Paths.LastDot | routes/uploadRoutes.js:43 | the position found is the last dot, or there is no dot |
| Paths.NoSlashComponent | routes/uploadRoutes.js:43 | a slash-free name is its own last component |
| Paths.DotFreeTail | routes/uploadRoutes.js:43 | a dot with no dot after it is the last dot |
| UploadRoutes.FileExtension | routes/uploadRoutes.js:43 | the upload's extension is empty or starts with a dot |
| UploadRoutes.IsImageExtension | routes/uploadRoutes.js:72-78 | defines the image whitelist: .png, .jpg, .jpeg, .webp and .avif, nothing else |
| UploadRoutes.Falsy | routes/uploadRoutes.js:99-116 | defines a falsy body field: absent or the empty string |
| UploadRoutes.Base64Text | routes/uploadRoutes.js:82-83 | defines the text a template literal makes of imgToBase64's result: the base64 string, or "null" when it returned null |
| UploadRoutes.TempPath | routes/uploadRoutes.js:42 | defines where multer staged the upload: the file name under the temp directory |
| UploadRoutes.ExtensionOfUpload | routes/uploadRoutes.js:43 | an upload named stem.suffix is judged on "." + lower-cased suffix |
| UploadRoutes.UpperCasePdfAccepted | routes/uploadRoutes.js:43-46 | "Report.PDF" passes the ".pdf" test |
| UploadRoutes.GifExtension | routes/uploadRoutes.js:43 | the extension of "scan.gif" is ".gif" |
| UploadRoutes.GifRejected | routes/uploadRoutes.js:72-79 | "scan.gif" is neither a PDF nor in the image whitelist |
| UploadRoutes.Answer | routes/uploadRoutes.js:52-56 | a generated result is sent with 200; a thrown error with 500 and its message |
| UploadRoutes.Uploads.UploadPdf | routes/uploadRoutes.js:37-61 | no file gives 400 "No file uploaded" and no deletion; a non-.pdf gives 400; a .pdf is extracted then sent to the generator (200) or fails with 500; whenever a file was received and the request finishes, the temp file is deleted |
| UploadRoutes.Uploads.ExtractPdfAndGenerate | routes/uploadRoutes.js:49-56 | the PDF text is the document's extraction and is handed to createQuestions; a loading failure answers 500 without calling it |
| UploadRoutes.Uploads.UploadImg | routes/uploadRoutes.js:63-95 | no file gives 400; an extension outside the five accepted ones gives 400; otherwise encode, describe, generate, with 500 on a thrown error; the temp file is always deleted |
| UploadRoutes.Uploads.DescribeImageAndGenerate | routes/uploadRoutes.js:81-91 | the payload is the base64 text (the word null when encoding failed); its description goes to createQuestions, or a description failure answers 500 |
| UploadRoutes.Uploads.UploadLink | routes/uploadRoutes.js:97-112 | a falsy link gives 400 "No link uploaded"; otherwise the transcript text is generated from, or the transcript error answers 500 |
| UploadRoutes.Uploads.UploadText | routes/uploadRoutes.js:114-127 | a falsy text gives 400 "No text uploaded"; otherwise the text itself goes to createQuestions |
| UploadRoutes.Uploads.Generate | routes/uploadRoutes.js:52-53 | one createQuestions call is recorded and its answer sent |
| UploadRoutes.Uploads.Unlink | routes/uploadRoutes.js:59 | exactly the given path leaves the temp directory |
| SubscriptionServices.CheckSubscription | services/subscriptionServices.js:6-13 | returns a row of the user covering now (start <= now < end), and one whenever such a row exists |
| SubscriptionServices.IsCurrent | services/subscriptionServices.js:9 | defines a current row of the user: start_date <= now < end_date |
| SubscriptionServices.IsTrialOf | services/subscriptionServices.js:15 | defines a trial row of the user: plan_type 'trial' |
| SubscriptionServices.CheckTrial | services/subscriptionServices.js:14-18 | eligible if and only if the user has no trial row |
| SubscriptionServices.StatusOf | services/subscriptionServices.js:20-28 | trialing/active if and only if a current row exists (by its plan type); eligible if and only if none is current and no trial was ever taken; none if and only if none is current but a trial was taken |
| SubscriptionServices.CheckStatus | services/subscriptionServices.js:20-28 | a failing query surfaces as an error; otherwise the status of the table |
| SubscriptionServices.SetTrial | services/subscriptionServices.js:30-41 | inserts exactly one trial row from now to three days later and returns its end; users are untouched and the users table keeps its keys |
| SubscriptionServices.TrialRow | services/subscriptionServices.js:35-37 | defines the row setTrial inserts: a trial from now to three days later |
| SubscriptionServices.CheckSubscriptionAppend | services/subscriptionServices.js:6-13 | an appended row changes the current-row lookup only when no earlier row was current |
| SubscriptionServices.TrialLifecycle | services/subscriptionServices.js:20-41 | after a trial is inserted the user is never eligible again, and within the three days is trialing or active |
| SubscriptionServices.OtherUsersUnaffected | services/subscriptionServices.js:6-18 | a row for one user never changes another user's status |
| SubscriptionServices.EligibleTrialKeepsOne | routes/subscriptionRoutes.js:22-26 | inserting a trial only for an eligible user keeps at most one trial row per user |
| SubscriptionServices.OneTrialPerUser | routes/subscriptionRoutes.js:22-26 | defines the invariant the trial route keeps: no user has two trial rows |
| SubscriptionRoutes.SubscriptionStatus | routes/subscriptionRoutes.js:8-17 | 200 with the status, or 500 with the thrown message |
| SubscriptionRoutes.StartTrial | routes/subscriptionRoutes.js:19-31 | an eligible user gets a trial row and 200; any other status gets 400 "No available trial" and the table is unchanged; a thrown error gives 500; one trial per user is preserved and the users table keeps its keys |
| SubscriptionMiddleware.Gate | middlewares/subscriptionMiddleware.js:3-16 | admits if and only if the status is trialing or active; eligible and none get 401 "Access denied"; a thrown error gets 500 |
| SubscriptionMiddleware.ValidateStatus | middlewares/subscriptionMiddleware.js:3-16 | admits if and only if the database answers and some row of the user covers now |
| SubscriptionMiddleware.AdmittedDuringTrial | middlewares/subscriptionMiddleware.js:9-12 | a user whose trial started at `now` is admitted at every moment of the following three days |
| AuthServices.FindByEmail | services/authServices.js:24-28 | returns a user with that email, and nothing exactly when no user has it |
| AuthServices.FindById | services/authServices.js:30-34 | returns a user with that id, and nothing exactly when no user has it |
| AuthServices.UsersWithout | services/authServices.js:66 | deletion keeps exactly the users with other ids, each as many times as before, and removes every row with that id |
| AuthServices.SubscriptionsWithout | services/authServices.js:62 | deletion keeps exactly the subscription rows of other users, each as many times as before, and removes every row of that user |
| AuthServices.RegisterUser | services/authServices.js:36-44 | a taken email gives "User already exists" with no change; otherwise one user with the hashed password and a fresh id is inserted and its public columns and token are returned; ids and emails stay unique |
| AuthServices.LoginUser | services/authServices.js:46-55 | an unknown email gives "User does not exist"; a failed comparison gives "Invalid password"; success returns id, name, email and token, never the hash |
| AuthServices.RemoveUserInfo | services/authServices.js:57-69 | an unknown id gives "User does not exist" with no change; otherwise the user's subscriptions and the user row are deleted and nothing else; uniqueness is kept |
| AuthServices.DeleteRows | services/authServices.js:62-66 | the two DELETE statements: the user's subscription rows, then the user row, with ids and emails still unique |
| AuthServices.RemovingKeepsValid | services/authServices.js:66 | deleting a user keeps ids below the counter and ids and emails unique |
| Database.UsersValid | services/authServices.js:36-44 | defines the keys of the users table: ids below the serial counter, ids and emails unique |
| AuthServices.RegisteredUserFound | services/authServices.js:36-40 | after registering under a fresh email, looking that email up finds the new user |
| AuthServices.RegisterThenLogin | services/authServices.js:36-55 | if compare(p, hash(p)) holds, a newly registered user can log in with the same password |
| AuthServices.UniqueEmailLookup | services/authServices.js:24-28 | with unique emails, looking up a user's email finds that very user |
| AuthServices.SameRowsSameChoice | services/authServices.js:62 | deleting one user's subscriptions leaves another user's current-row lookup unchanged |
| AuthServices.DeletionKeepsOthersStatus | services/authServices.js:57-69 | deleting an account never changes another user's subscription status |
| AuthServices.DeletedUserHasNoPlan | services/authServices.js:62 | after deletion the removed id has no current plan and no trial on record (eligible) |
| AuthMiddleware.ValidateToken | middlewares/authMiddleware.js:3-14 | a missing or empty header gives 401 "Access denied"; otherwise the header minus its first "Bearer " is verified: success attaches the payload, failure gives 401 "Invalid token" |
| AuthMiddleware.Missing | middlewares/authMiddleware.js:5 | defines a falsy Authorization header: absent or empty |
| AuthMiddleware.BearerHeader | middlewares/authMiddleware.js:8 | "Bearer <t>" is verified as exactly t |
| AuthMiddleware.RepeatedBearer | middlewares/authMiddleware.js:8 | only the first "Bearer " is removed: "Bearer Bearer t" is verified as "Bearer t" |
| AuthMiddleware.BareToken | middlewares/authMiddleware.js:8 | a non-empty header with no "Bearer " is verified as it stands |

## Left out

- The vision model (`imgToText`): its prompt, the model name and the HTTP call are not modelled. It is a parameter: `describe` in the PDF path and `imgToText` in the image route.
- In the PDF path the vision model (`describe`) and sharp's PNG encoding (`encode`) are total. Either of them throwing inside the `page.objs.get` callback leaves the inner promise unresolved, so the request never answers. Nothing handles the rejected callback promise either, and on Node 15 and later an unhandled rejection ends the process. That happens, for example, when sharp rejects a raw buffer that is not width*height*4 bytes. Neither is modelled. In that case `unlinkSync` is never reached, so the temp file is not deleted.
- sharp: PNG encoding, resizing and `imgToBase64`'s file check and resize are parameters (`encode`, `imgToBase64`). A null from `imgToBase64` is kept, rendered as the text "null".
- PdfExtract.Paints: a paintImageXObject operator whose name `page.objs` never resolves is skipped as painting nothing. In the source the `page.objs.get` callback never runs for such a name, `resolve()` is never called, the request hangs and `unlinkSync` is never reached. A name pdf.js resolves in its shared `commonObjs` instead of `page.objs` is the likely case. The model does not capture that hang. UploadRoutes.Uploads.UploadPdf answers such a document with its native text and deletes the file, where the source never answers.
- pdf.js: `getDocument` and loading are the parameter `loadPdf`. A page is given as its text items, its operator list (opcode plus first argument) and its resolved image objects.
- Raster.ConvertToRgba: kind 1 is treated as the code treats it, one byte per pixel.
- The `if (!rgba)` test in `pdfToText` can never fire, since typed arrays are always truthy, so it has no counterpart.
- Async callbacks, promise scheduling and concurrent requests are not modelled. In particular the race between two registrations of the same email, or two trial starts, is not modelled.
- multer: storage, the `Date.now()` file-name prefix and the static `/temp` route are not modelled. An upload is its staged file name and original name, and the temp directory is a set of paths.
- UploadRoutes.Uploads.UploadPdf: promises the deletion only for requests that finish (see the hang above).
- UploadRoutes.Uploads.UploadPdf: does not model `unlinkSync` throwing on a missing file; deletion is a set difference.
- UploadRoutes.Uploads.UploadImg: does not model `unlinkSync` throwing on a missing file either; deletion is the same set difference.
- UploadRoutes.Uploads.UploadLink: body fields are absent or strings. Other JSON values (numbers, objects) are not modelled.
- Text.LowerChar: only ASCII capitals are lowered. Non-ASCII letters are left alone, and so is KELVIN SIGN, which JavaScript lowers to "k". See the Text.Lower line for why the extension check is unaffected.
- Text.Lower: only ASCII letters are lowered, and the length is always kept. JavaScript's toLowerCase also lowers non-ASCII letters, and for U+0130 (LATIN CAPITAL LETTER I WITH DOT ABOVE) it yields two code units, "i" followed by U+0307. KELVIN SIGN lowers to an ASCII "k". Neither can produce or spoil an accepted extension, since none of them contains "k" or U+0307.
- SubscriptionServices.CheckSubscription: promises some current row, not a particular one, because the SQL query has no ORDER BY.
- SubscriptionServices.SetTrial: the trial end is now plus three days of milliseconds. `Date.setDate` calendar and daylight-saving effects are not modelled.
- SubscriptionServices.SetTrial: the status check and the insert share one `now`.
- Database failures: a failure is the `outage` field, which makes every query throw the same message. A failure between two queries of one operation (for example after the subscriptions are deleted but before the user row is) is not modelled.
- bcrypt and jsonwebtoken are parameters (`hash`, `compare`, `sign`, `verify`). Token expiry and the secret are theirs.
- express-validator rules in the auth routes, and the routes outside the core (the auth routes, the question routes, payment), are not part of this model.
- `createQuestions` is a parameter; its result is opaque JSON.
- The message "Upsupported file format" is kept verbatim.
