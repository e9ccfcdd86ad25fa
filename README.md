# moblog mail-to-post core, modelled in Dafny

moblog turns one incoming e-mail into a Jekyll blog post. It reads the
parsed envelope and takes the plain-text body. If asked to, it uses the
HTML body converted to markdown instead. It then normalises line breaks
and writes a front-matter block (layout, title = subject, date). It
derives a slug from the subject: the first 20 bytes of its SHA-256,
hex-encoded. Every image part becomes `assets/<slug>-NNN.jpg` and is
staged with `git add`. Inline images replace their `[image: <name>]`
marker in the document. Other images are appended as markdown images.
The post file is `_posts/<day>-<slug>.md`.

Files and modules:

- `wrappers.dfy` (`Wrappers`): `Option` and `Result`, used for the fatal exits.
- `strings.dfy` (`GoStrings`): the Go library behaviour the core relies on.
  This covers `strings.HasPrefix`, `strings.ReplaceAll` and the `%03d` verb.
  It also holds `Split`/`Join`, a reference reading of `ReplaceAll`.
- `hex.dfy` (`Hex`): `hex.EncodeToString` and its inverse.
- `post.dfy` (`Post`): `msgSlug`, the resize decision in `saveJpeg`, body
  normalisation, the front matter, the asset and post paths, and the marker
  and image-link texts.
- `attachments.dfy` (`Attachments`): the two attachment loops. `Fold` and
  `Resolve` are the reference definitions, one part at a time.
  `InlineLoop`, `OtherLoop` and `ResolveAttachments` are the loops. They are
  proved to compute those definitions. Lemmas give the numbering, staging,
  skipping, failure and text properties.
- `moblog.dfy` (`Moblog`): `main` from the envelope to the entry to publish.

These things outside the program are inputs:

- SHA-256: `sum: string -> Digest`, 32 bytes.
- The HTML-to-markdown converter: `convert: string -> Option<string>`.
- The two clock readings: `stamp` for the front matter and `day` for the
  file name. They are not assumed to agree.
- `saveJpeg` and `git add`: the `Effects` oracles, each answering success or
  failure for a path.

The fatal exits become `Err` values of the attachment step and of the
pipeline.

Three things the code does that the model keeps:

- Resize: the code always asks for width 800, with height 0, which means
  "keep the aspect ratio" (main.go:42-43). It does not make the larger side
  800. A tall, narrow image is therefore widened (see
  `Post.TallImageIsWidened`).
- Front matter: the closing `---` line is followed directly by the body.
  There is no blank line between them.
- Clock: the date in the front matter and the day in the file name come from
  two separate `time.Now()` calls (main.go:115, main.go:155).

## Model

| member | source | states |
|---|---|---|
| `Hex.HexEncode` | main.go:34 | the encoding has two characters per byte, all in `0-9a-f` |
| `Hex.DecodeEncode` | main.go:34 | decoding an encoding gives the bytes back |
| `Hex.EncodeDecode` | main.go:34 | encoding a decoding of lower-case hex gives the text back |
| `Hex.EncodeInjective` | main.go:34 | two byte strings have the same encoding exactly when they are equal |
| `Post.MsgSlug` | main.go:32-35 | for every subject, the empty one included, the slug is 40 characters, all lower-case hex |
| `Post.SlugDecodes` | main.go:32-35 | the slug decodes to exactly the first 20 bytes of the subject's digest |
| `Post.SameSlugIff` | main.go:32-35 | two subjects get the same slug exactly when their digests agree on the first 20 bytes (equal subjects always do) |
| `Post.ResizeFor` | main.go:42-43 | a resize is requested exactly when width > 800 or height > 800; the request is always width 800 with height left to the library |
| `Post.TallImageIsWidened` | main.go:42-43 | an image narrower than 800 but taller than 800 is asked to become 800 wide, wider than it was |
| `GoStrings.ReplaceAllChar` | main.go:108 | replacing a one-character pattern is substitution character by character |
| `Post.NormalizeBodyCharwise` | main.go:108 | the body is the text with every `\r` dropped and then every `\n` written as `\n\n`, other characters kept in order |
| `Post.NormalizeBodyHasNoCR` | main.go:108 | the normalised body holds no `\r` |
| `Post.NormalizeBodyCollapses` | main.go:108 | reading each `\n\n` of the body as one `\n` gives back the CR-stripped text, so nothing else was changed |
| `Post.NormalizeBodyUnchanged` | main.go:108 | text with neither `\r` nor `\n` is returned unchanged |
| `Post.NormalizeTwoLines` | main.go:108 | two break-free lines joined by `\n` come out joined by `\n\n` |
| `Post.PostLines` | main.go:109-115 | line by line, the document is `---`, `layout: post`, `title: <subject>`, `date: <stamp>`, `---`, the body's lines and a final empty line, when subject and stamp hold no line feed |
| `Post.TitleLine` | main.go:111 | the third line is `title: <subject>` exactly when the subject holds no line feed: the subject is inserted unescaped |
| `GoStrings.Pad3RoundTrip` | main.go:123 | reading back the `%03d` rendering of `n` gives `n` |
| `GoStrings.Pad3Injective` | main.go:123 | two numbers have the same `%03d` rendering exactly when they are equal |
| `GoStrings.Pad3Shape` | main.go:123 | the `%03d` rendering is all digits, at least three of them, and exactly three below 1000 |
| `Post.AssetPathInjective` | main.go:123 | under one slug, two asset paths are equal exactly when their sequence numbers are |
| `Post.PostPathParts` | main.go:155 | the day and the 40-character slug can be read back from the post path at fixed positions |
| `Post.PostPathInjective` | main.go:155 | with 40-character slugs, two post paths are equal exactly when their days and slugs are |
| `GoStrings.SplitJoin` | main.go:134 | cutting a text at a separator and gluing the pieces with it gives the text back |
| `GoStrings.SplitPiecesFree` | main.go:134 | no piece of a split contains the separator |
| `GoStrings.ReplaceAllIsSplitJoin` | main.go:134 | `ReplaceAll` cuts at every leftmost non-overlapping occurrence and glues the pieces with the replacement |
| `GoStrings.ReplaceAllAbsent` | main.go:134 | when the pattern does not occur, `ReplaceAll` changes nothing |
| `GoStrings.ReplaceAllIdentity` | main.go:134 | replacing a pattern by itself changes nothing |
| `Attachments.StepSkipsNonImage` | main.go:119-122 | a part whose content type does not start with `image/` yields no path, no text change and no counter step |
| `Attachments.InlineStepReplacesMarkers` | main.go:133-134 | an inline image replaces every non-overlapping `[image: <name>]` in the whole text with `![<name>](/<path>)`; without a marker the text is unchanged |
| `Attachments.StepOkIff` | main.go:119-131 | one step succeeds exactly when the part is not an image or its asset is both saved and staged |
| `Attachments.FoldStops` | main.go:123-131 | an image that cannot be saved ends the loop with `CannotWriteAttachment`, one that cannot be staged with `CannotGitAdd`, both naming its path |
| `Attachments.FoldAdvancesImage` | main.go:123-135 | a stored image moves the loop to the new text, the next number and one more staged path, and keeps `n` and the staged list tied to the image parts seen |
| `Attachments.FoldAdvancesOther` | main.go:120-122 | a part that is not an image leaves the loop state as it was and keeps the numbering invariant |
| `Attachments.SubstitutedWithoutMarkers` | main.go:133-134 | when no inline image's marker occurs in the text, the inline loop leaves the text as it was |
| `Attachments.FoldProgress` | main.go:118-153 | a successful loop advances `n` by the number of image parts and stages their paths, numbered on from `n` |
| `Attachments.AssetPathsAppend` | main.go:118-153 | numbering inline images from 1, then other images from where it stopped, is numbering all of them from 1 |
| `Attachments.AssetPathsDistinct` | main.go:123-141 | the asset paths of one run are pairwise distinct |
| `Attachments.FoldSkipsNonImages` | main.go:119-122 | a loop over the parts is the same as the loop over its image parts alone |
| `Attachments.FoldStepOk` | main.go:119-131 | after one more part the loop succeeds exactly when it did before and that part, if an image, is saved and staged at the path its number gives |
| `Attachments.FoldSucceedsIff` | main.go:124-131 | a loop succeeds exactly when every image part, at the path its number gives, is saved and staged |
| `Attachments.FoldFailureSticks` | main.go:124-127 | a failure ends the loop: the outcome is that first failure |
| `Attachments.OtherFoldAppends` | main.go:151 | the other-parts loop leaves the old text as a prefix and appends `![<name>](/<path>)\n\n` per image part |
| `Attachments.InlineFoldSubstitutes` | main.go:119-136 | the inline loop applies each image part's marker replacement in turn, with the shared numbering |
| `Attachments.ResolveStaged` | main.go:117-153 | on success `n` ends at one past the image count, and the staged list is `assets/<slug>-001.jpg`, `-002`, ... in envelope order, inline parts first |
| `Attachments.ResolveSucceedsIff` | main.go:124-149 | both loops succeed exactly when every image part, numbered from 1 in envelope order, is saved and staged |
| `Attachments.ResolveSkipsNonImages` | main.go:119-140 | non-image parts in either list make no difference at all |
| `Attachments.ResolveText` | main.go:119-153 | the final text is the document with the inline markers replaced, followed by one image line per other image part |
| `Attachments.InlineLoop` | main.go:119-136 | the loop over the inline parts computes the inline fold, with invariants tying `n` and the staged list to the image parts seen |
| `Attachments.OtherLoop` | main.go:137-153 | the loop over the other parts computes the other-parts fold, with the same invariants |
| `Attachments.ResolveAttachments` | main.go:117-153 | the two loops together: success exactly when every image is saved and staged, staged paths numbered from 1 and pairwise distinct |
| `Moblog.GetHeader` | main.go:115 | a header's value, or the empty string when the header is absent |
| `Moblog.BodySource` | main.go:102-107 | the body comes from the converted HTML only when HTML is asked for, present and converts; otherwise it is the plain text |
| `Moblog.MailToPost` | main.go:102-155 | the post path is `_posts/<day>-<slug>` with the same slug as every asset; the text is the composed document with the attachment substitutions and appends; the run fails exactly when an image cannot be saved or staged |

## Left out

- Flag parsing, `os.Chdir`, reading and MIME-parsing the mail, and `mail.ParseAddress` of the From header (main.go:70-100) are left out. The envelope is a given value.
- Header lookup is an exact-key map lookup. The library's case-insensitive canonicalisation of header names is not part of this model.
- `clean()` and every `git` command (main.go:53-67, 128, 146, 160-171) are external processes. Only `git add` of an asset appears, as the `Effects.gitAdd` oracle. Adding, committing and pushing the post file are left out.
- The SMTP reply (main.go:173-185) is network I/O and is left out.
- `godown.Convert` (main.go:104) is a foreign library. It is the `convert` input.
- SHA-256 (main.go:33) is the `sum` input.
- Image decoding, Lanczos resampling and JPEG encoding (main.go:38-50) are left out, apart from the dimension test. `saveJpeg`'s success or failure is the `Effects.saveJpeg` oracle.
- `Post.ResizeFor`: only the arguments passed to `resize.Resize` are modelled. The height the library computes from the aspect ratio is not part of this model.
- File writes of assets and of the post (main.go:45-50, 156) are left out. So is the post-write failure path (main.go:157-159).
- `time.Now()` and its formatting are the string inputs `stamp` and `day`.
- `GoStrings.ReplaceAll`: only a non-empty pattern is modelled. Every call in the core uses a non-empty one (`"\r"`, `"\n"`, a marker).
- `Post.AssetPath`: `filepath.Join`'s cleaning and `ToSlash` are taken to change nothing. That holds because the slug is hex and the name has no separators.
- `Post.PostPath`: `filepath.Join` is taken as joining with `/`. The cleaning and the platform separator are not modelled; the day is digits and dashes.
- The `Effects` oracles answer as functions of the path and the part. A real file system could answer differently on a second call; the loops call each one once per asset.
- Exiting the process is replaced by returning the failure. What `log.Fatalf` prints is left out.
- Go strings are byte strings; here `string` is a sequence of Unicode characters. On valid UTF-8 this changes no result of the core: the `image/` prefix test is ASCII, `\r` and `\n` never occur inside a multi-byte sequence, and a marker match always starts and ends on character boundaries. Invalid UTF-8 input is not part of this model.
