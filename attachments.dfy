/**
 * The two attachment loops of `main.go`: inline parts first, then the
 * other parts, sharing one sequence counter `n` that starts at 1.  Each
 * image part is saved as `assets/<slug>-NNN.jpg` and staged; an inline
 * part replaces its `[image: <name>]` marker everywhere in the document
 * text, another part appends a markdown image.  A failing save or stage
 * ends the loops with that failure instead of exiting the process.
 *
 * `Fold` and `Resolve` are the reference definitions, one part at a time
 * over the first `i` parts of a list; `InlineLoop`, `OtherLoop` and
 * `ResolveAttachments` are the loops, proved to compute them.
 */
module Attachments {
  import opened Wrappers
  import opened GoStrings
  import opened Hex
  import opened Post

  /** One MIME part of the envelope. */
  datatype Part = Part(contentType: string, fileName: string, content: seq<byte>)

  /** Which of the two loops a part goes through. */
  datatype Kind = Inline | Other

  /** What the loops carry: the document text, the next sequence number and the staged paths. */
  datatype Progress = Progress(text: string, n: nat, staged: seq<string>)

  /** The fatal outcomes of the loops, with the path of the asset concerned. */
  datatype Failure = CannotWriteAttachment(path: string) | CannotGitAdd(path: string)

  /**
   * The outside world the loops call: `saveJpeg(path, part)` and
   * `git add path`, each answering whether it succeeded.
   */
  datatype Effects = Effects(saveJpeg: (string, Part) -> bool, gitAdd: string -> bool)

  predicate IsImage(part: Part)
  {
    HasPrefix(part.contentType, "image/")
  }

  /** Saving and staging the asset at `path` both succeed. */
  predicate Stored(io: Effects, path: string, part: Part)
  {
    io.saveJpeg(path, part) && io.gitAdd(path)
  }

  /** The line appended for an image that is not inline: the markdown image and a blank line. */
  function AttachmentLine(fileName: string, path: string): string
  {
    ImageLink(fileName, path) + "\n\n"
  }

  /** The new text after one image part of the given kind was stored at `path`. */
  function NewText(kind: Kind, text: string, part: Part, path: string): string
  {
    match kind
    case Inline => ReplaceAll(text, Marker(part.fileName), ImageLink(part.fileName, path))
    case Other => text + AttachmentLine(part.fileName, path)
  }

  /** One iteration of either loop. */
  function Step(kind: Kind, slug: string, io: Effects, p: Progress, part: Part): Result<Progress, Failure>
  {
    if !IsImage(part) then Ok(p)
    else
      var file := AssetPath(slug, p.n);
      if !io.saveJpeg(file, part) then Err(CannotWriteAttachment(file))
      else if !io.gitAdd(file) then Err(CannotGitAdd(file))
      else Ok(Progress(NewText(kind, p.text, part, file), p.n + 1, p.staged + [file]))
  }

  /** Either loop run from `p` over the first `i` parts, stopping at the first failure. */
  function Fold(kind: Kind, slug: string, io: Effects, p: Progress, parts: seq<Part>, i: nat): Result<Progress, Failure>
    requires i <= |parts|
    decreases i
  {
    if i == 0 then Ok(p)
    else
      match Fold(kind, slug, io, p, parts, i - 1)
      case Err(e) => Err(e)
      case Ok(q) => Step(kind, slug, io, q, parts[i - 1])
  }

  /** Both loops: all inline parts, then all other parts, sharing the counter started at 1. */
  function Resolve(text: string, slug: string, io: Effects, inlines: seq<Part>, others: seq<Part>): Result<Progress, Failure>
  {
    match Fold(Inline, slug, io, Progress(text, 1, []), inlines, |inlines|)
    case Err(e) => Err(e)
    case Ok(q) => Fold(Other, slug, io, q, others, |others|)
  }

  // ---- Reference views of the outcome ----

  /** The number of image parts among the first `i` parts. */
  function Count(parts: seq<Part>, i: nat): (c: nat)
    requires i <= |parts|
    ensures c <= i
    decreases i
  {
    if i == 0 then 0 else Count(parts, i - 1) + (if IsImage(parts[i - 1]) then 1 else 0)
  }

  /** The image parts among the first `i` parts, in order. */
  function Images(parts: seq<Part>, i: nat): (imgs: seq<Part>)
    requires i <= |parts|
    ensures |imgs| == Count(parts, i)
    decreases i
  {
    if i == 0 then [] else Images(parts, i - 1) + (if IsImage(parts[i - 1]) then [parts[i - 1]] else [])
  }

  /** The path part `j` gets: its number is `from` plus the number of image parts before it. */
  function PathOf(slug: string, from: nat, parts: seq<Part>, j: nat): string
    requires j < |parts|
  {
    AssetPath(slug, from + Count(parts, j))
  }

  /** The `count` asset paths numbered `from`, `from + 1`, ... */
  function AssetPaths(slug: string, from: nat, count: nat): seq<string>
  {
    seq(count, k requires 0 <= k => AssetPath(slug, from + k))
  }

  /** Every image part among the first `i`, at the path its number gives, is saved and staged. */
  predicate AllStored(slug: string, io: Effects, from: nat, parts: seq<Part>, i: nat)
    requires i <= |parts|
  {
    forall j {:trigger PathOf(slug, from, parts, j)} ::
      0 <= j < i && IsImage(parts[j]) ==> Stored(io, PathOf(slug, from, parts, j), parts[j])
  }

  /** The lines appended for the image parts among the first `i` other parts. */
  function AppendedLines(slug: string, from: nat, parts: seq<Part>, i: nat): string
    requires i <= |parts|
    decreases i
  {
    if i == 0 then []
    else
      AppendedLines(slug, from, parts, i - 1)
      + (if IsImage(parts[i - 1]) then AttachmentLine(parts[i - 1].fileName, PathOf(slug, from, parts, i - 1)) else [])
  }

  /** The text after the markers of the image parts among the first `i` inline parts were replaced in turn. */
  function Substituted(text: string, slug: string, from: nat, parts: seq<Part>, i: nat): string
    requires i <= |parts|
    decreases i
  {
    if i == 0 then text
    else
      var before := Substituted(text, slug, from, parts, i - 1);
      var part := parts[i - 1];
      if IsImage(part) then ReplaceAll(before, Marker(part.fileName), ImageLink(part.fileName, PathOf(slug, from, parts, i - 1)))
      else before
  }

  // ---- Lemmas about one step ----

  /** A part that is not an image changes nothing: no path, same text, same counter. */
  lemma StepSkipsNonImage(kind: Kind, slug: string, io: Effects, p: Progress, part: Part)
    requires !IsImage(part)
    ensures Step(kind, slug, io, p, part) == Ok(p)
  {
  }

  /**
   * An inline image replaces every non-overlapping occurrence of its marker:
   * the new text is the old one cut at the markers and glued with the link.
   * A text without the marker is unchanged.
   */
  lemma InlineStepReplacesMarkers(slug: string, io: Effects, p: Progress, part: Part)
    requires Step(Inline, slug, io, p, part).Ok? && IsImage(part)
    ensures Step(Inline, slug, io, p, part).value.text
         == Join(Split(p.text, Marker(part.fileName)), ImageLink(part.fileName, AssetPath(slug, p.n)))
    ensures !Contains(p.text, Marker(part.fileName)) ==> Step(Inline, slug, io, p, part).value.text == p.text
  {
    var marker, link := Marker(part.fileName), ImageLink(part.fileName, AssetPath(slug, p.n));
    ReplaceAllIsSplitJoin(p.text, marker, link);
    if !Contains(p.text, marker) {
      ReplaceAllAbsent(p.text, marker, link);
    }
  }

  /** One step succeeds exactly when the part is not an image or its asset is saved and staged. */
  lemma StepOkIff(kind: Kind, slug: string, io: Effects, p: Progress, part: Part)
    ensures Step(kind, slug, io, p, part).Ok? <==> (IsImage(part) ==> Stored(io, AssetPath(slug, p.n), part))
  {
  }

  lemma StepStored(kind: Kind, slug: string, io: Effects, p: Progress, part: Part)
    requires IsImage(part) && Stored(io, AssetPath(slug, p.n), part)
    ensures Step(kind, slug, io, p, part)
         == Ok(Progress(NewText(kind, p.text, part, AssetPath(slug, p.n)), p.n + 1, p.staged + [AssetPath(slug, p.n)]))
  {
  }

  // ---- Lemmas about the numbering ----

  /** One more staged path extends the numbered run by the next number. */
  lemma StagedSnoc(slug: string, staged: seq<string>, from: nat, count: nat)
    ensures staged + AssetPaths(slug, from, count + 1)
         == (staged + AssetPaths(slug, from, count)) + [AssetPath(slug, from + count)]
  {
    var run := AssetPaths(slug, from, count);
    assert AssetPaths(slug, from, count + 1) == run + [AssetPath(slug, from + count)];
    ConcatAssoc(staged, run, [AssetPath(slug, from + count)]);
  }

  /** The asset paths of one run are pairwise distinct. */
  lemma AssetPathsDistinct(slug: string, from: nat, count: nat)
    ensures |AssetPaths(slug, from, count)| == count
    ensures forall i, j :: 0 <= i < j < count ==> AssetPaths(slug, from, count)[i] != AssetPaths(slug, from, count)[j]
  {
    var run := AssetPaths(slug, from, count);
    forall i, j | 0 <= i < j < count
      ensures run[i] != run[j]
    {
      assert run[i] == AssetPath(slug, from + i) && run[j] == AssetPath(slug, from + j);
      AssetPathInjective(slug, from + i, from + j);
    }
  }

  /** Numbering runs the asset paths on: `count1` from `from`, then `count2` more. */
  lemma AssetPathsAppend(slug: string, from: nat, count1: nat, count2: nat)
    ensures AssetPaths(slug, from, count1 + count2)
         == AssetPaths(slug, from, count1) + AssetPaths(slug, from + count1, count2)
  {
  }

  // ---- Lemmas about a loop ----

  /**
   * A successful loop advances the counter by the number of image parts and
   * stages their paths, numbered on from where the counter stood.
   */
  lemma {:induction false} FoldProgress(kind: Kind, slug: string, io: Effects, p: Progress, parts: seq<Part>, i: nat)
    requires i <= |parts|
    requires Fold(kind, slug, io, p, parts, i).Ok?
    ensures Fold(kind, slug, io, p, parts, i).value.n == p.n + Count(parts, i)
    ensures Fold(kind, slug, io, p, parts, i).value.staged == p.staged + AssetPaths(slug, p.n, Count(parts, i))
    decreases i
  {
    if i > 0 {
      FoldProgress(kind, slug, io, p, parts, i - 1);
      var q := Fold(kind, slug, io, p, parts, i - 1).value;
      var c := Count(parts, i - 1);
      if IsImage(parts[i - 1]) {
        StepStored(kind, slug, io, q, parts[i - 1]);
        StagedSnoc(slug, p.staged, p.n, c);
      }
    }
  }

  /** Running a loop over a list depends only on the parts it has reached. */
  lemma {:induction false} FoldSamePrefix(kind: Kind, slug: string, io: Effects, p: Progress, a: seq<Part>, b: seq<Part>, k: nat)
    requires k <= |a| && k <= |b|
    requires forall j :: 0 <= j < k ==> a[j] == b[j]
    ensures Fold(kind, slug, io, p, a, k) == Fold(kind, slug, io, p, b, k)
    decreases k
  {
    if k > 0 {
      FoldSamePrefix(kind, slug, io, p, a, b, k - 1);
    }
  }

  /** Parts that are not images make no difference to a loop: it is the loop over the image parts alone. */
  lemma {:induction false} FoldSkipsNonImages(kind: Kind, slug: string, io: Effects, p: Progress, parts: seq<Part>, i: nat)
    requires i <= |parts|
    ensures Fold(kind, slug, io, p, parts, i) == Fold(kind, slug, io, p, Images(parts, i), Count(parts, i))
    decreases i
  {
    if i > 0 {
      FoldSkipsNonImages(kind, slug, io, p, parts, i - 1);
      var before, c := Images(parts, i - 1), Count(parts, i - 1);
      if IsImage(parts[i - 1]) {
        var after := Images(parts, i);
        assert after == before + [parts[i - 1]];
        assert after[c] == parts[i - 1];
        FoldSamePrefix(kind, slug, io, p, after, before, c);
        assert Count(parts, i) == c + 1;
        assert Fold(kind, slug, io, p, after, c + 1)
            == match Fold(kind, slug, io, p, after, c)
               case Err(e) => Err(e)
               case Ok(q) => Step(kind, slug, io, q, parts[i - 1]);
      } else {
        assert Images(parts, i) == before;
      }
    }
  }

  lemma AllStoredSnoc(slug: string, io: Effects, from: nat, parts: seq<Part>, i: nat)
    requires 0 < i <= |parts|
    ensures AllStored(slug, io, from, parts, i)
       <==> AllStored(slug, io, from, parts, i - 1)
            && (IsImage(parts[i - 1]) ==> Stored(io, PathOf(slug, from, parts, i - 1), parts[i - 1]))
  {
  }

  /** One more part: the loop still succeeds exactly when it did and this part, if an image, is stored at its path. */
  lemma FoldStepOk(kind: Kind, slug: string, io: Effects, p: Progress, parts: seq<Part>, i: nat)
    requires 0 < i <= |parts|
    ensures Fold(kind, slug, io, p, parts, i).Ok?
       <==> Fold(kind, slug, io, p, parts, i - 1).Ok?
            && (IsImage(parts[i - 1]) ==> Stored(io, PathOf(slug, p.n, parts, i - 1), parts[i - 1]))
  {
    var prev := Fold(kind, slug, io, p, parts, i - 1);
    if prev.Ok? {
      FoldProgress(kind, slug, io, p, parts, i - 1);
      assert AssetPath(slug, prev.value.n) == PathOf(slug, p.n, parts, i - 1);
      assert Fold(kind, slug, io, p, parts, i) == Step(kind, slug, io, prev.value, parts[i - 1]);
      StepOkIff(kind, slug, io, prev.value, parts[i - 1]);
    } else {
      assert Fold(kind, slug, io, p, parts, i) == prev;
    }
  }

  /** A loop succeeds exactly when every image part, at the path its number gives, is saved and staged. */
  lemma {:induction false} FoldSucceedsIff(kind: Kind, slug: string, io: Effects, p: Progress, parts: seq<Part>, i: nat)
    requires i <= |parts|
    ensures Fold(kind, slug, io, p, parts, i).Ok? <==> AllStored(slug, io, p.n, parts, i)
    decreases i
  {
    if i > 0 {
      FoldSucceedsIff(kind, slug, io, p, parts, i - 1);
      AllStoredSnoc(slug, io, p.n, parts, i);
      FoldStepOk(kind, slug, io, p, parts, i);
    }
  }

  /** Once a loop has failed on the first `i` parts, it fails the same way on all of them. */
  lemma {:induction false} FoldFailureSticks(kind: Kind, slug: string, io: Effects, p: Progress, parts: seq<Part>, i: nat)
    requires i <= |parts|
    requires Fold(kind, slug, io, p, parts, i).Err?
    ensures Fold(kind, slug, io, p, parts, |parts|) == Fold(kind, slug, io, p, parts, i)
    decreases |parts| - i
  {
    if i < |parts| {
      FoldFailureSticks(kind, slug, io, p, parts, i + 1);
    }
  }

  /** The other-parts loop only appends: the old text, then one image line per image part. */
  lemma {:induction false} OtherFoldAppends(slug: string, io: Effects, p: Progress, parts: seq<Part>, i: nat)
    requires i <= |parts|
    requires Fold(Other, slug, io, p, parts, i).Ok?
    ensures Fold(Other, slug, io, p, parts, i).value.text == p.text + AppendedLines(slug, p.n, parts, i)
    decreases i
  {
    if i > 0 {
      OtherFoldAppends(slug, io, p, parts, i - 1);
      FoldProgress(Other, slug, io, p, parts, i - 1);
      var q := Fold(Other, slug, io, p, parts, i - 1).value;
      var before := AppendedLines(slug, p.n, parts, i - 1);
      if IsImage(parts[i - 1]) {
        var line := AttachmentLine(parts[i - 1].fileName, PathOf(slug, p.n, parts, i - 1));
        StepStored(Other, slug, io, q, parts[i - 1]);
        ConcatAssoc(p.text, before, line);
      }
    }
  }

  /** The inline loop replaces the markers of its image parts in turn, numbered from the counter. */
  lemma {:induction false} InlineFoldSubstitutes(slug: string, io: Effects, p: Progress, parts: seq<Part>, i: nat)
    requires i <= |parts|
    requires Fold(Inline, slug, io, p, parts, i).Ok?
    ensures Fold(Inline, slug, io, p, parts, i).value.text == Substituted(p.text, slug, p.n, parts, i)
    decreases i
  {
    if i > 0 {
      InlineFoldSubstitutes(slug, io, p, parts, i - 1);
      FoldProgress(Inline, slug, io, p, parts, i - 1);
      if IsImage(parts[i - 1]) {
        StepStored(Inline, slug, io, Fold(Inline, slug, io, p, parts, i - 1).value, parts[i - 1]);
      }
    }
  }

  /** When none of the markers occurs in the text, the inline substitutions leave it unchanged. */
  lemma {:induction false} SubstitutedWithoutMarkers(text: string, slug: string, from: nat, parts: seq<Part>, i: nat)
    requires i <= |parts|
    requires forall j :: 0 <= j < i && IsImage(parts[j]) ==> !Contains(text, Marker(parts[j].fileName))
    ensures Substituted(text, slug, from, parts, i) == text
    decreases i
  {
    if i > 0 {
      SubstitutedWithoutMarkers(text, slug, from, parts, i - 1);
      var part := parts[i - 1];
      if IsImage(part) {
        ReplaceAllAbsent(text, Marker(part.fileName), ImageLink(part.fileName, PathOf(slug, from, parts, i - 1)));
      }
    }
  }

  // ---- Lemmas about both loops ----

  /** The number of image parts in a whole list. */
  function NumImages(parts: seq<Part>): nat
  {
    Count(parts, |parts|)
  }

  /**
   * On success the counter ends one past the number of image parts and the
   * staged paths are `assets/<slug>-001.jpg`, `-002`, ... one per image part,
   * inline parts first: pairwise distinct, in envelope order.
   */
  lemma ResolveStaged(text: string, slug: string, io: Effects, inlines: seq<Part>, others: seq<Part>)
    requires Resolve(text, slug, io, inlines, others).Ok?
    ensures Resolve(text, slug, io, inlines, others).value.n == 1 + NumImages(inlines) + NumImages(others)
    ensures Resolve(text, slug, io, inlines, others).value.staged == AssetPaths(slug, 1, NumImages(inlines) + NumImages(others))
  {
    var start := Progress(text, 1, []);
    var a, b := NumImages(inlines), NumImages(others);
    var first := Fold(Inline, slug, io, start, inlines, |inlines|);
    var q := first.value;
    FoldProgress(Inline, slug, io, start, inlines, |inlines|);
    var front, back := AssetPaths(slug, 1, a), AssetPaths(slug, 1 + a, b);
    assert [] + front == front;
    assert q.staged == front;
    var second := Fold(Other, slug, io, q, others, |others|);
    FoldProgress(Other, slug, io, q, others, |others|);
    assert second.value.staged == front + back;
    AssetPathsAppend(slug, 1, a, b);
  }

  /**
   * Both loops succeed exactly when every image part is saved and staged,
   * inline parts numbered from 1 and other parts numbered on from there.
   */
  lemma ResolveSucceedsIff(text: string, slug: string, io: Effects, inlines: seq<Part>, others: seq<Part>)
    ensures Resolve(text, slug, io, inlines, others).Ok?
       <==> AllStored(slug, io, 1, inlines, |inlines|) && AllStored(slug, io, 1 + NumImages(inlines), others, |others|)
  {
    var start := Progress(text, 1, []);
    FoldSucceedsIff(Inline, slug, io, start, inlines, |inlines|);
    var first := Fold(Inline, slug, io, start, inlines, |inlines|);
    if first.Ok? {
      FoldProgress(Inline, slug, io, start, inlines, |inlines|);
      FoldSucceedsIff(Other, slug, io, first.value, others, |others|);
    }
  }

  /** Parts that are not images, in either list, make no difference at all. */
  lemma ResolveSkipsNonImages(text: string, slug: string, io: Effects, inlines: seq<Part>, others: seq<Part>)
    ensures Resolve(text, slug, io, inlines, others)
         == Resolve(text, slug, io, Images(inlines, |inlines|), Images(others, |others|))
  {
    var start := Progress(text, 1, []);
    FoldSkipsNonImages(Inline, slug, io, start, inlines, |inlines|);
    var first := Fold(Inline, slug, io, start, inlines, |inlines|);
    if first.Ok? {
      FoldSkipsNonImages(Other, slug, io, first.value, others, |others|);
    }
  }

  /**
   * On success the text is the original with the inline markers replaced,
   * followed by one image line per other image part; so the text after the
   * inline loop is a prefix of the final text.
   */
  lemma ResolveText(text: string, slug: string, io: Effects, inlines: seq<Part>, others: seq<Part>)
    requires Resolve(text, slug, io, inlines, others).Ok?
    ensures Resolve(text, slug, io, inlines, others).value.text
         == Substituted(text, slug, 1, inlines, |inlines|) + AppendedLines(slug, 1 + NumImages(inlines), others, |others|)
  {
    var start := Progress(text, 1, []);
    InlineFoldSubstitutes(slug, io, start, inlines, |inlines|);
    FoldProgress(Inline, slug, io, start, inlines, |inlines|);
    OtherFoldAppends(slug, io, Fold(Inline, slug, io, start, inlines, |inlines|).value, others, |others|);
  }

  /** What the loops keep about their state after the first `i` parts. */
  predicate Numbered(slug: string, start: Progress, parts: seq<Part>, i: nat, q: Progress)
    requires i <= |parts|
  {
    q.n == start.n + Count(parts, i) && q.staged == start.staged + AssetPaths(slug, start.n, Count(parts, i))
  }

  /** One stored image part: the loop moves on to the new text, the next number and one more staged path. */
  lemma FoldAdvancesImage(kind: Kind, slug: string, io: Effects, start: Progress, parts: seq<Part>, i: nat, q: Progress)
    requires i < |parts| && IsImage(parts[i])
    requires Fold(kind, slug, io, start, parts, i) == Ok(q) && Numbered(slug, start, parts, i, q)
    requires Stored(io, AssetPath(slug, q.n), parts[i])
    ensures Fold(kind, slug, io, start, parts, i + 1)
         == Ok(Progress(NewText(kind, q.text, parts[i], AssetPath(slug, q.n)), q.n + 1, q.staged + [AssetPath(slug, q.n)]))
    ensures Numbered(slug, start, parts, i + 1, Progress(NewText(kind, q.text, parts[i], AssetPath(slug, q.n)), q.n + 1, q.staged + [AssetPath(slug, q.n)]))
  {
    StepStored(kind, slug, io, q, parts[i]);
    NumberedSnoc(slug, start, parts, i, q, NewText(kind, q.text, parts[i], AssetPath(slug, q.n)));
  }

  lemma NumberedSnoc(slug: string, start: Progress, parts: seq<Part>, i: nat, q: Progress, text: string)
    requires i < |parts| && IsImage(parts[i]) && Numbered(slug, start, parts, i, q)
    ensures Numbered(slug, start, parts, i + 1, Progress(text, q.n + 1, q.staged + [AssetPath(slug, q.n)]))
  {
    assert Count(parts, i + 1) == Count(parts, i) + 1;
    StagedSnoc(slug, start.staged, start.n, Count(parts, i));
  }

  /** An image part that cannot be saved or staged ends the loop with that failure. */
  lemma FoldStops(kind: Kind, slug: string, io: Effects, start: Progress, parts: seq<Part>, i: nat, q: Progress)
    requires i < |parts| && IsImage(parts[i])
    requires Fold(kind, slug, io, start, parts, i) == Ok(q)
    requires !Stored(io, AssetPath(slug, q.n), parts[i])
    ensures Fold(kind, slug, io, start, parts, |parts|)
         == Err(if !io.saveJpeg(AssetPath(slug, q.n), parts[i]) then CannotWriteAttachment(AssetPath(slug, q.n))
                else CannotGitAdd(AssetPath(slug, q.n)))
  {
    var file := AssetPath(slug, q.n);
    assert Step(kind, slug, io, q, parts[i])
        == Err(if !io.saveJpeg(file, parts[i]) then CannotWriteAttachment(file) else CannotGitAdd(file));
    FoldFailureSticks(kind, slug, io, start, parts, i + 1);
  }

  /** A part that is not an image leaves the loop state as it was. */
  lemma FoldAdvancesOther(kind: Kind, slug: string, io: Effects, start: Progress, parts: seq<Part>, i: nat, q: Progress)
    requires i < |parts| && !IsImage(parts[i])
    requires Fold(kind, slug, io, start, parts, i) == Ok(q) && Numbered(slug, start, parts, i, q)
    ensures Fold(kind, slug, io, start, parts, i + 1) == Ok(q)
    ensures Numbered(slug, start, parts, i + 1, q)
  {
    StepSkipsNonImage(kind, slug, io, q, parts[i]);
    assert Count(parts, i + 1) == Count(parts, i);
  }

  // ---- The loops ----

  /** The `for` loop over `env.Inlines`. */
  method InlineLoop(slug: string, io: Effects, start: Progress, inlines: seq<Part>) returns (r: Result<Progress, Failure>)
    ensures r == Fold(Inline, slug, io, start, inlines, |inlines|)
  {
    var text, n: nat, staged := start.text, start.n, start.staged;
    for i := 0 to |inlines|
      invariant Fold(Inline, slug, io, start, inlines, i) == Ok(Progress(text, n, staged))
      invariant Numbered(slug, start, inlines, i, Progress(text, n, staged))
    {
      var part := inlines[i];
      if IsImage(part) {
        var file := AssetPath(slug, n);
        if !io.saveJpeg(file, part) {
          FoldStops(Inline, slug, io, start, inlines, i, Progress(text, n, staged));
          return Err(CannotWriteAttachment(file));
        }
        if !io.gitAdd(file) {
          FoldStops(Inline, slug, io, start, inlines, i, Progress(text, n, staged));
          return Err(CannotGitAdd(file));
        }
        FoldAdvancesImage(Inline, slug, io, start, inlines, i, Progress(text, n, staged));
        text := ReplaceAll(text, Marker(part.fileName), ImageLink(part.fileName, file));
        staged := staged + [file];
        n := n + 1;
      } else {
        FoldAdvancesOther(Inline, slug, io, start, inlines, i, Progress(text, n, staged));
      }
    }
    r := Ok(Progress(text, n, staged));
  }

  /** The `for` loop over `env.OtherParts`. */
  method OtherLoop(slug: string, io: Effects, start: Progress, others: seq<Part>) returns (r: Result<Progress, Failure>)
    ensures r == Fold(Other, slug, io, start, others, |others|)
  {
    var text, n: nat, staged := start.text, start.n, start.staged;
    for j := 0 to |others|
      invariant Fold(Other, slug, io, start, others, j) == Ok(Progress(text, n, staged))
      invariant Numbered(slug, start, others, j, Progress(text, n, staged))
    {
      var part := others[j];
      if IsImage(part) {
        var file := AssetPath(slug, n);
        if !io.saveJpeg(file, part) {
          FoldStops(Other, slug, io, start, others, j, Progress(text, n, staged));
          return Err(CannotWriteAttachment(file));
        }
        if !io.gitAdd(file) {
          FoldStops(Other, slug, io, start, others, j, Progress(text, n, staged));
          return Err(CannotGitAdd(file));
        }
        FoldAdvancesImage(Other, slug, io, start, others, j, Progress(text, n, staged));
        text := text + AttachmentLine(part.fileName, file);
        staged := staged + [file];
        n := n + 1;
      } else {
        FoldAdvancesOther(Other, slug, io, start, others, j, Progress(text, n, staged));
      }
    }
    r := Ok(Progress(text, n, staged));
  }

  /**
   * Both loops of `main.go`, counter `n` starting at 1 and shared: the staged
   * paths are numbered 1, 2, ... over the image parts in envelope order.
   */
  method ResolveAttachments(text: string, slug: string, io: Effects, inlines: seq<Part>, others: seq<Part>)
    returns (r: Result<Progress, Failure>)
    ensures r == Resolve(text, slug, io, inlines, others)
    ensures r.Ok? <==> AllStored(slug, io, 1, inlines, |inlines|) && AllStored(slug, io, 1 + NumImages(inlines), others, |others|)
    ensures r.Ok? ==> r.value.staged == AssetPaths(slug, 1, NumImages(inlines) + NumImages(others))
    ensures r.Ok? ==> forall i, j :: 0 <= i < j < |r.value.staged| ==> r.value.staged[i] != r.value.staged[j]
  {
    ResolveSucceedsIff(text, slug, io, inlines, others);
    AssetPathsDistinct(slug, 1, NumImages(inlines) + NumImages(others));
    r := InlineLoop(slug, io, Progress(text, 1, []), inlines);
    if r.Ok? {
      r := OtherLoop(slug, io, r.value, others);
      if r.Ok? {
        ResolveStaged(text, slug, io, inlines, others);
      }
    }
  }
}
