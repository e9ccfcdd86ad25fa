/**
 * The pure pieces of `main.go`: the slug derived from the subject
 * (`msgSlug`), the resize decision of `saveJpeg`, the normalisation of
 * the body text, the front matter of the post, and the file names of
 * the post and of its image assets.
 */
module Post {
  import opened Wrappers
  import opened GoStrings
  import opened Hex

  // ---- Identity: msgSlug ----

  /** A SHA-256 sum: 32 bytes. */
  type Digest = d: seq<byte> | |d| == 32 witness seq(32, i => 0)

  /** Number of digest bytes kept in a slug. */
  const SlugBytes := 20

  /**
   * `msgSlug(subject)`: the first 20 bytes of the digest of the subject,
   * hex-encoded.  `sum` stands for SHA-256 over the subject's bytes.
   */
  function MsgSlug(sum: string -> Digest, subject: string): (slug: string)
    ensures |slug| == 2 * SlugBytes
    ensures IsLowerHex(slug)
  {
    HexEncode(sum(subject)[..SlugBytes])
  }

  /** The slug is exactly the hex encoding of the first 20 digest bytes: decoding recovers them. */
  lemma SlugDecodes(sum: string -> Digest, subject: string)
    ensures HexDecode(MsgSlug(sum, subject)) == sum(subject)[..SlugBytes]
  {
    DecodeEncode(sum(subject)[..SlugBytes]);
  }

  /** Two subjects share a slug exactly when their digests agree on the first 20 bytes. */
  lemma SameSlugIff(sum: string -> Digest, s: string, t: string)
    ensures MsgSlug(sum, s) == MsgSlug(sum, t) <==> sum(s)[..SlugBytes] == sum(t)[..SlugBytes]
  {
    EncodeInjective(sum(s)[..SlugBytes], sum(t)[..SlugBytes]);
  }

  // ---- Image normalisation: the resize decision in saveJpeg ----

  const MaxSide := 800

  /**
   * Arguments of `resize.Resize(width, height, ...)`; a height of 0 asks
   * the library to keep the aspect ratio.
   */
  datatype ResizeRequest = ResizeRequest(width: nat, height: nat)

  /** Whether and how `saveJpeg` resizes an image of the given pixel dimensions. */
  function ResizeFor(width: int, height: int): (r: Option<ResizeRequest>)
    ensures r.Some? <==> width > MaxSide || height > MaxSide
    ensures r.Some? ==> r.value.width == MaxSide && r.value.height == 0
  {
    if width > MaxSide || height > MaxSide then Some(ResizeRequest(MaxSide, 0)) else None
  }

  /**
   * The requested width is 800 whatever the shape: an image taller than
   * 800 but narrower than 800 is asked to become wider than it was.
   */
  lemma TallImageIsWidened(width: int, height: int)
    requires 0 <= width < MaxSide < height
    ensures ResizeFor(width, height).Some?
    ensures ResizeFor(width, height).value.width > width
  {
  }

  // ---- Body normalisation ----

  /** `strings.ReplaceAll(strings.ReplaceAll(text, "\r", ""), "\n", "\n\n")`. */
  function NormalizeBody(text: string): string
  {
    ReplaceAll(ReplaceAll(text, "\r", ""), "\n", "\n\n")
  }

  /** The text with every carriage return removed, character by character. */
  function StripCarriageReturns(text: string): string
  {
    ExpandChar(text, '\r', "")
  }

  /** Every line feed written twice, character by character. */
  function DoubleLineFeeds(text: string): string
  {
    ExpandChar(text, '\n', "\n\n")
  }

  /** The inverse of `DoubleLineFeeds`: every pair of line feeds read as one. */
  function CollapseLineFeeds(s: string): string
    decreases |s|
  {
    if s == [] then []
    else if |s| >= 2 && s[0] == '\n' && s[1] == '\n' then "\n" + CollapseLineFeeds(s[2..])
    else [s[0]] + CollapseLineFeeds(s[1..])
  }

  lemma {:induction false} ExpandCharKeepsOut(s: string, c: char, rep: string, d: char)
    requires d !in rep
    requires d != c ==> d !in s
    ensures d !in ExpandChar(s, c, rep)
    decreases |s|
  {
    if s != [] {
      ExpandCharKeepsOut(s[1..], c, rep, d);
    }
  }

  lemma {:induction false} ExpandCharAbsent(s: string, c: char, rep: string)
    requires c !in s
    ensures ExpandChar(s, c, rep) == s
    decreases |s|
  {
    if s != [] {
      ExpandCharAbsent(s[1..], c, rep);
      assert s == [s[0]] + s[1..];
    }
  }

  lemma {:induction false} CollapseDoubled(text: string)
    ensures CollapseLineFeeds(DoubleLineFeeds(text)) == text
    decreases |text|
  {
    if text != [] {
      var rest := DoubleLineFeeds(text[1..]);
      CollapseDoubled(text[1..]);
      if text[0] == '\n' {
        assert DoubleLineFeeds(text) == "\n\n" + rest;
        assert ("\n\n" + rest)[2..] == rest;
      } else {
        assert DoubleLineFeeds(text) == [text[0]] + rest;
        assert ([text[0]] + rest)[1..] == rest;
      }
      assert text == [text[0]] + text[1..];
    }
  }

  /** Normalisation is: strip every `\r`, then write every `\n` twice, all other characters kept in order. */
  lemma NormalizeBodyCharwise(text: string)
    ensures NormalizeBody(text) == DoubleLineFeeds(StripCarriageReturns(text))
  {
    ReplaceAllChar(text, '\r', "");
    ReplaceAllChar(ReplaceAll(text, "\r", ""), '\n', "\n\n");
  }

  /** The normalised body holds no carriage return. */
  lemma NormalizeBodyHasNoCR(text: string)
    ensures '\r' !in NormalizeBody(text)
  {
    NormalizeBodyCharwise(text);
    ExpandCharKeepsOut(text, '\r', "", '\r');
    ExpandCharKeepsOut(StripCarriageReturns(text), '\n', "\n\n", '\r');
  }

  /** Reading each `\n\n` of the normalised body as one `\n` gives back the CR-stripped text. */
  lemma NormalizeBodyCollapses(text: string)
    ensures CollapseLineFeeds(NormalizeBody(text)) == StripCarriageReturns(text)
  {
    NormalizeBodyCharwise(text);
    CollapseDoubled(StripCarriageReturns(text));
  }

  /** Text with neither `\r` nor `\n` comes back unchanged. */
  lemma NormalizeBodyUnchanged(text: string)
    requires '\r' !in text && '\n' !in text
    ensures NormalizeBody(text) == text
  {
    NormalizeBodyCharwise(text);
    ExpandCharAbsent(text, '\r', "");
    ExpandCharAbsent(text, '\n', "\n\n");
  }

  lemma {:induction false} ExpandCharAppend(a: string, b: string, c: char, rep: string)
    ensures ExpandChar(a + b, c, rep) == ExpandChar(a, c, rep) + ExpandChar(b, c, rep)
    decreases |a|
  {
    if a != [] {
      assert (a + b)[1..] == a[1..] + b;
      ExpandCharAppend(a[1..], b, c, rep);
    } else {
      assert a + b == b;
    }
  }

  /** Two lines without line breaks of their own, such as `line1\nline2`, come out as `line1\n\nline2`. */
  lemma NormalizeTwoLines(a: string, b: string)
    requires '\r' !in a && '\n' !in a && '\r' !in b && '\n' !in b
    ensures NormalizeBody(a + "\n" + b) == a + "\n\n" + b
  {
    var nl := "\n";
    NormalizeBodyCharwise(a + nl + b);
    calc {
      StripCarriageReturns(a + nl + b);
    == { ExpandCharAppend(a + nl, b, '\r', ""); ExpandCharAppend(a, nl, '\r', ""); }
      ExpandChar(a, '\r', "") + ExpandChar(nl, '\r', "") + ExpandChar(b, '\r', "");
    == { ExpandCharAbsent(a, '\r', ""); ExpandCharAbsent(nl, '\r', ""); ExpandCharAbsent(b, '\r', ""); }
      a + nl + b;
    }
    calc {
      DoubleLineFeeds(a + nl + b);
    == { ExpandCharAppend(a + nl, b, '\n', "\n\n"); ExpandCharAppend(a, nl, '\n', "\n\n"); }
      ExpandChar(a, '\n', "\n\n") + ExpandChar(nl, '\n', "\n\n") + ExpandChar(b, '\n', "\n\n");
    == { ExpandCharAbsent(a, '\n', "\n\n"); ExpandCharAbsent(b, '\n', "\n\n"); }
      a + "\n\n" + b;
    }
  }

  // ---- Post composition ----

  /** Each line followed by a line feed. */
  function EndLines(lines: seq<string>): string
    decreases |lines|
  {
    if lines == [] then "" else lines[0] + "\n" + EndLines(lines[1..])
  }

  /**
   * The document written to the post file: the template's six lines,
   * `---`, `layout: post`, the subject as title (not escaped), the time
   * stamp, `---` and the body, each ended by a line feed.
   */
  function ComposePost(subject: string, stamp: string, body: string): string
  {
    EndLines(["---", "layout: post", "title: " + subject, "date: " + stamp, "---", body])
  }

  lemma {:induction false} SplitEndingInSep(x: string, sep: string)
    requires |sep| == 1
    ensures Split(x + sep, sep) == Split(x, sep) + [""]
    decreases |x|
  {
    if x == [] {
      assert (x + sep)[..1] == sep && (x + sep)[1..] == [];
    } else {
      var s := x + sep;
      assert s[1..] == x[1..] + sep;
      SplitEndingInSep(x[1..], sep);
      if x[0] == sep[0] {
        assert s[..1] == sep && x[..1] == sep;
      } else {
        assert s[..1] != sep && (|x| < 1 || x[..1] != sep);
      }
    }
  }

  lemma CharContains(s: string, c: char)
    requires c in s
    ensures Contains(s, [c])
  {
    var i :| 0 <= i < |s| && s[i] == c;
    assert OccursAt(s, [c], i);
  }

  /** Read line by line, the first `k` lines come back as they were when none of them holds a line feed. */
  lemma {:induction false} SplitEndLines(lines: seq<string>, k: nat)
    requires k <= |lines|
    requires forall i :: 0 <= i < k ==> '\n' !in lines[i]
    ensures Split(EndLines(lines), "\n") == lines[..k] + Split(EndLines(lines[k..]), "\n")
    decreases k
  {
    if k > 0 {
      var tail := lines[1..];
      SplitEndLines(tail, k - 1);
      SplitAfterPiece(lines[0], "\n", EndLines(tail));
      assert tail[k - 1..] == lines[k..];
      assert [lines[0]] + tail[..k - 1] == lines[..k];
      ConcatAssoc([lines[0]], tail[..k - 1], Split(EndLines(lines[k..]), "\n"));
    }
  }

  /**
   * Read line by line, a document whose subject and time stamp hold no line
   * feed is the five lines of front matter followed by the lines of the body.
   */
  lemma PostLines(subject: string, stamp: string, body: string)
    requires '\n' !in subject && '\n' !in stamp
    ensures Split(ComposePost(subject, stamp, body), "\n")
         == ["---", "layout: post", "title: " + subject, "date: " + stamp, "---"] + Split(body, "\n") + [""]
  {
    var lines := ["---", "layout: post", "title: " + subject, "date: " + stamp, "---", body];
    assert '\n' !in lines[2] && '\n' !in lines[3];
    SplitEndLines(lines, 5);
    assert lines[5..] == [body];
    assert EndLines([body]) == body + "\n" by {
      assert [body][1..] == [];
    }
    SplitEndingInSep(body, "\n");
  }

  /**
   * The third line of the document is the title line `title: <subject>`
   * exactly when the subject holds no line feed: the subject is inserted
   * unescaped.
   */
  lemma TitleLine(subject: string, stamp: string, body: string)
    ensures |Split(ComposePost(subject, stamp, body), "\n")| > 2
    ensures Split(ComposePost(subject, stamp, body), "\n")[2] == "title: " + subject <==> '\n' !in subject
  {
    var title := "title: " + subject;
    var lines := ["---", "layout: post", title, "date: " + stamp, "---", body];
    SplitEndLines(lines, 2);
    var rest := lines[2..];
    var pieces := Split(EndLines(rest), "\n");
    assert Split(ComposePost(subject, stamp, body), "\n") == lines[..2] + pieces;
    assert EndLines(rest) == title + "\n" + EndLines(rest[1..]);
    if '\n' !in subject {
      assert '\n' !in title;
      SplitAfterPiece(title, "\n", EndLines(rest[1..]));
    } else {
      SplitPiecesFree(EndLines(rest), "\n");
      CharContains(title, '\n');
    }
  }

  // ---- File names ----

  /** `assets/<slug>-NNN.jpg`, the path of the image with sequence number `n`. */
  function AssetPath(slug: string, n: nat): string
  {
    "assets/" + slug + "-" + Pad3(n) + ".jpg"
  }

  /** Distinct sequence numbers give distinct asset paths under one slug. */
  lemma AssetPathInjective(slug: string, n: nat, m: nat)
    ensures AssetPath(slug, n) == AssetPath(slug, m) <==> n == m
  {
    var p, q := AssetPath(slug, n), AssetPath(slug, m);
    var k := |slug| + 8;
    if p == q {
      assert |Pad3(n)| == |Pad3(m)|;
      assert p[k..|p| - 4] == Pad3(n);
      assert q[k..|q| - 4] == Pad3(m);
      Pad3Injective(n, m);
    }
  }

  /** `_posts/<day>-<slug>.md`, the path of the post file. */
  function PostPath(day: string, slug: string): string
  {
    "_posts/" + day + "-" + slug + ".md"
  }

  /** The day and the 40-character slug can be read back from the post path. */
  lemma PostPathParts(day: string, slug: string)
    requires |slug| == 2 * SlugBytes
    ensures |PostPath(day, slug)| == |day| + 51
    ensures PostPath(day, slug)[7..7 + |day|] == day
    ensures PostPath(day, slug)[|day| + 8..|day| + 48] == slug
  {
  }

  /** With 40-character slugs, post paths are equal exactly when day and slug are. */
  lemma PostPathInjective(day1: string, slug1: string, day2: string, slug2: string)
    requires |slug1| == 2 * SlugBytes && |slug2| == 2 * SlugBytes
    ensures PostPath(day1, slug1) == PostPath(day2, slug2) <==> day1 == day2 && slug1 == slug2
  {
    PostPathParts(day1, slug1);
    PostPathParts(day2, slug2);
  }

  // ---- Inline image markers ----

  /** The placeholder a mail client leaves in the text for an inline image. */
  function Marker(fileName: string): string
  {
    "[image: " + fileName + "]"
  }

  /** The markdown image that replaces a marker or is appended for an attachment. */
  function ImageLink(fileName: string, path: string): string
  {
    "![" + fileName + "](/" + path + ")"
  }
}
