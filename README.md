# Single Coffee Carousel — a Dafny model of the carousel store

The application (`app.js`) serves a public page with a carousel of images and videos, each with a caption. It also serves a password-protected admin page where the operator uploads, reorders, re-captions and removes entries. The list of entries lives in `carousel_data.json`. Each admin request reads the whole list, changes one thing and writes the whole list back.

This project models that list and everything that computes on it:

- `Carousel`: the entry record `{url, type, caption}`. The data file is modelled as missing, corrupt or written. `readCarousel` reads a missing or corrupt file as the empty list. The functions `Removed`, `Moved` and `Recaptioned` give the list after a remove, move or caption request. The class `CarouselStore` holds the data file. Its methods are the four POST handlers: `/admin/upload`, `/admin/remove`, `/admin/move` and `/admin/caption`. Each method saves only when its guard holds, as the source does. So an out-of-range request leaves even a missing or corrupt file untouched.
- `Intake`: the multer callbacks. The stored file name is `Date.now() + '-' + name.replace(/\s+/g, '_')`. The model uses JavaScript's exact `\s` character set and JavaScript's decimal form of the timestamp. The file filter accepts only `image/` and `video/` MIME types.
- `Html`: `escapeHTML`, with a decoder as its partner. A lemma proves that decoding an escaped caption gives back the original caption.
- `Render`: the two pages as view models. The public page shows the "no items" message, or one slide per entry with only the first one active. The admin page has one row per entry, keyed by its index. The class `Slideshow` models the public page's script: `idx`, the `active` class of each slide, and `show`, `prev` and `next` with JavaScript's truncating `%`.

Parsed request indices are `Option<int>`, where `None` stands for `NaN` from `parseInt`. `data[i]` is truthy exactly when `0 <= i < data.length`, because every entry is an object. The clock is a parameter.

Two points where the code differs from what its data and pages suggest; the model follows the code:

- Items keep their full MIME string, not an Image/Video tag. The pages pick `<img>` when the type starts with `image`, with no slash. `Intake.ShowsAsImageWhenAccepted` proves that for any type the filter accepted, this agrees with the filter's `image/` prefix.
- A file rejected by the filter does not produce the handler's "Falha no upload" reply. Multer raises an error before the handler runs. The model reports it as `Rejected` with the filter's message.

## Model

| member | source | states |
|---|---|---|
| Html.EscapeChar | app.js:48 | Exactly the five characters `& < > " '` get a replacement; no replacement contains `<`, `>`, `"` or `'` |
| Html.EscapeAll | app.js:47-49 | The escaped text is at least as long as the input and contains no raw `<`, `>`, `"` or `'` |
| Html.EscapeHtml | app.js:45-50 | A missing (falsy) caption and the empty caption give `""`. Every output is free of raw markup characters, and a present caption decodes back to itself |
| Html.EscapeRoundTrip | app.js:47-49 | Decoding the five entities in the escaped text gives back exactly the original caption |
| Html.EscapeInjective | app.js:47-49 | Two different captions never escape to the same text |
| Html.EscapeKeepsPlainText | app.js:47-49 | A caption without any of the five characters is copied unchanged |
| Intake.IsJsSpace | app.js:18 | The whitespace class of `\s`; it never contains `_`, `-` or a digit, so neither the replacement nor the name's separator and timestamp is whitespace |
| Intake.Underscored | app.js:18 | The replacement leaves no whitespace at all and never lengthens the name |
| Intake.UnderscoredRun | app.js:18 | A whole whitespace run, of any length, followed by the end or a non-space becomes exactly one `_` |
| Intake.UnderscoredConcat | app.js:18 | Splitting a name after a non-space character splits the result the same way |
| Intake.UnderscoredKeepsVisible | app.js:18 | All characters other than whitespace and `_` survive the replacement, in their original order |
| Intake.UnderscoredKeepsPlainName | app.js:18 | A name without whitespace is kept as it is |
| Intake.UnderscoredIdempotent | app.js:18 | Applying the replacement twice is the same as applying it once |
| Intake.Decimal | app.js:18 | The timestamp's decimal form is a non-empty string of digits |
| Intake.DecimalRoundTrip | app.js:18 | Reading the decimal form back gives the timestamp |
| Intake.StoredName | app.js:17-18 | A stored name contains no whitespace character |
| Intake.StoredNameTimestamp | app.js:17-18 | The leading digits of a stored name denote the upload time |
| Intake.StoredNamesDiffer | app.js:17-18 | Uploads at different milliseconds never get the same stored name |
| Intake.SameMillisecondCollision | app.js:17-18 | Within one millisecond, two names that differ only by a single space where the other has `_` (`a b.jpg`, `a_b.jpg`) get the same stored name |
| Intake.FileFilter | app.js:22-27 | The filter accepts a type if and only if the text before its first `/` is `image` or `video`, and otherwise rejects it with the fixed message |
| Intake.FileFilterSamples | app.js:22-27 | `image/png` and `video/mp4` are accepted; `application/pdf` is rejected |
| Intake.ShowsAsImage | app.js:117 | The page's `image` prefix test holds for every `image/` type and fails for every `video/` type |
| Intake.ShowsAsImageWhenAccepted | app.js:117 | For an accepted type, the page's `image` prefix test picks `<img>` exactly for `image/` types and `<video>` exactly for `video/` types |
| Carousel.Load | app.js:32-39 | A missing or corrupt file reads as the empty list; a non-empty read means the file holds exactly that list |
| Carousel.NewItem | app.js:223-227 | The new entry's url is `/uploads/` followed by the stored name. Its type is the declared MIME type, and its caption is the given one or `""` when absent |
| Carousel.Addresses | app.js:236 | The `data[i]` test: a NaN index never passes, and a passing index is an integer position of an existing entry |
| Carousel.Offset | app.js:250 | `i + d` is NaN exactly when either operand is, and otherwise differs from `i` by `d` |
| Carousel.Removed | app.js:235-241 | With `i` in range, the list loses exactly entry `i`: one shorter, earlier entries in place, later ones shifted down by one, same multiset minus that entry. Otherwise the list is unchanged |
| Carousel.Moved | app.js:248-253 | With `i` and `i + d` in range, the two entries trade places and every other position is unchanged. Otherwise the list is unchanged. Length and multiset are always kept |
| Carousel.Recaptioned | app.js:260-265 | Only entry `i`'s caption changes, to the given caption or `""`. All urls and types, and every other entry, are unchanged. Out of range is a no-op |
| Carousel.MovedTwice | app.js:248-253 | The same move applied twice restores the list, for every `i` and `d` |
| Carousel.DownThenUp | app.js:182-183 | Row `k`'s down arrow, then row `k + 1`'s up arrow, restores the list |
| Carousel.MovesPastTheEnds | app.js:250 | The first row's up arrow and the last row's down arrow change nothing |
| Carousel.RecaptionedIdempotent | app.js:260-265 | Setting the same caption again changes nothing further |
| Carousel.UploadAppends | app.js:222-228 | After an accepted upload the list is one longer, ends with the new entry, and keeps every earlier entry in its place |
| Carousel.NewItemUrl | app.js:224 | A new entry's url is `/uploads/` followed by a whitespace-free name whose leading digits give the upload time |
| Carousel.CarouselStore.Upload | app.js:220-230 | No file part: reply "upload failed", file untouched. Type rejected: the filter's error, file untouched. Otherwise the file holds the old list plus the new entry, and the reply redirects to the admin page |
| Carousel.CarouselStore.Remove | app.js:233-243 | The list read back is `Removed` of the old one. In range, the file is rewritten and the removed entry (whose media is deleted) is returned. Otherwise the file is untouched. The reply is always OK |
| Carousel.CarouselStore.Move | app.js:246-255 | The list read back is `Moved` of the old one. The file is rewritten only when both indices are in range. The reply is always OK |
| Carousel.CarouselStore.SetCaption | app.js:258-267 | The list read back is `Recaptioned` of the old one. The file is rewritten only when the index is in range. The reply is always OK |
| Render.MarkupFor | app.js:117 | For an accepted type, the page writes `<img>` exactly when the top-level type is `image` and `<video>` exactly when it is `video` |
| Render.RenderPublic | app.js:113-128 | The page shows the "no items" message exactly when the list is empty. Otherwise there is one slide per entry, and only the first is active. Each slide shows its entry's url. Its caption has no raw markup and decodes to the stored caption. For accepted types it uses `<img>` exactly for `image/` |
| Render.FirstSlideOnlyActive | app.js:116 | A non-empty carousel opens with the first slide active and no other |
| Render.FirstUploadScenario | app.js:220-230 | A first upload of `a b.jpg` (image/jpeg, caption "Hi") gives a one-slide page. The slide is active, shows an image, and has a url with no whitespace |
| Render.RenderAdmin | app.js:175-186 | One row per entry, in order. Row `k` carries index `k` and the entry's url. Its caption box value has no raw markup and decodes to the stored caption. For accepted types it uses `<img>` exactly for `image/` |
| Render.AdminRowsAddressTheirItems | app.js:181-184 | Row `k`'s index addresses entry `k`. Its remove drops exactly that entry, and its arrows swap it with the neighbour above or below |
| Render.JsRem | app.js:136 | JavaScript's remainder is congruent to the dividend modulo `b`. It lies in `[0, b)` for a non-negative dividend and in `(-b, 0]` for a negative one |
| Render.Wrap | app.js:136 | `(n + len) % len` is congruent to `n` modulo `len`, and lies in `[0, len)` whenever `n + len >= 0` |
| Render.NextIndex | app.js:140 | From any index from `-1` up, `next` lands in `[0, len)` |
| Render.PrevIndex | app.js:139 | From any index from `1 - len` up, `prev` lands in `[0, len)` |
| Render.NavigationWraps | app.js:133-140 | From any slide, next and prev stay in `[0, len)`. Next from the last gives 0, prev from 0 gives the last, and each undoes the other |
| Render.NextTimesIsOffset | app.js:140 | Pressing next `k` times from slide `i` lands on `(i + k) mod len` |
| Render.NextCycle | app.js:140 | Pressing next once per slide returns to the starting slide |
| Render.Slideshow.constructor | app.js:131 | On page load `idx` is 0 and only the first slide carries `active` |
| Render.Slideshow.Show | app.js:133-138 | With no slides nothing changes. Otherwise `idx` becomes `(n + len) % len` and exactly that slide is active |
| Render.Slideshow.Prev | app.js:139 | `idx` moves to `PrevIndex` of the old one, keeping exactly one slide active |
| Render.Slideshow.Next | app.js:140 | `idx` moves to `NextIndex` of the old one, keeping exactly one slide active |

## Left out

- HTTP routing, helmet headers, static file serving, `app.listen` and console output: transport plumbing with no logic of its own.
- Sessions, login, logout and the credential check: security plumbing outside the carousel list.
- Multipart decoding and writing the upload to disk: library calls. Only the `filename` and `fileFilter` rules are modelled, with `Date.now()` as a parameter.
- Reading and writing `carousel_data.json`, and JSON itself. The file is abstracted to missing, corrupt or written, and a written list reads back unchanged. A file that parses to something other than a list of entries is not modelled.
- Deleting the removed entry's media file (`fs.unlinkSync`). `CarouselStore.Remove` returns the removed entry, but the uploads directory is not modelled.
- `parseInt` of the request fields. Indices arrive already parsed, as an integer or NaN. Captions are strings or absent; a non-string JSON caption is not modelled.
- Intake.Decimal: models JavaScript's number-to-string conversion only for non-negative integer timestamps below 10^21, the only ones `Date.now()` yields on a clock set after 1970.
- HTML markup, CSS and the client `fetch` followed by a reload. The pages are modelled as view models, not as text.
- Render.Slideshow.Show: requires `n + len >= 0` when there are slides, which `prev` and `next` always meet. For smaller `n`, JavaScript's `%` would give a negative index and the script would fail.
- Concurrent requests racing on the read-modify-write of the data file: each handler is modelled as one atomic step.
