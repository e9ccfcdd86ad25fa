/**
 * `main` of `main.go` from the parsed envelope to the finished post: the
 * body source (plain text, or the HTML converted to markdown when asked
 * for and the conversion succeeds), normalisation, front matter, slug,
 * the attachment loops and the post file name.
 */
module Moblog {
  import opened Wrappers
  import opened Post
  import opened Attachments

  /** The parsed mail: headers, plain-text body, HTML body, inline parts and other parts. */
  datatype Envelope = Envelope(
    headers: map<string, string>,
    text: string,
    html: string,
    inlines: seq<Part>,
    others: seq<Part>)

  /** `env.GetHeader(name)`: the header's value, or the empty string when there is none. */
  function GetHeader(env: Envelope, name: string): (value: string)
    ensures name in env.headers ==> value == env.headers[name]
    ensures name !in env.headers ==> value == ""
  {
    if name in env.headers then env.headers[name] else ""
  }

  function Subject(env: Envelope): string
  {
    GetHeader(env, "Subject")
  }

  /**
   * The text the body is made from.  With `useHtml` and a non-empty HTML
   * body, `convert` (the HTML-to-markdown converter) replaces the text
   * when it succeeds; a failed conversion falls back to the plain text.
   */
  function BodySource(env: Envelope, useHtml: bool, convert: string -> Option<string>): (text: string)
    ensures text == env.text || (useHtml && env.html != "" && convert(env.html) == Some(text))
    ensures useHtml && env.html != "" && convert(env.html).Some? ==> text == convert(env.html).value
  {
    if useHtml && env.html != "" && convert(env.html).Some? then convert(env.html).value else env.text
  }

  /** What one run produces for publishing: the post file's path and text, and the staged asset paths. */
  datatype Entry = Entry(path: string, text: string, assets: seq<string>)

  /**
   * From the envelope to the entry.  `stamp` and `day` are the two separate
   * readings of the clock (front-matter date and post file name), `sum` is
   * SHA-256, `io` saves and stages the assets.
   */
  method MailToPost(env: Envelope, useHtml: bool, convert: string -> Option<string>, sum: string -> Digest,
                    stamp: string, day: string, io: Effects)
    returns (r: Result<Entry, Failure>)
    ensures var slug := MsgSlug(sum, Subject(env));
      r.Ok? <==> AllStored(slug, io, 1, env.inlines, |env.inlines|)
                 && AllStored(slug, io, 1 + NumImages(env.inlines), env.others, |env.others|)
    ensures var slug := MsgSlug(sum, Subject(env));
      r.Err? ==> Resolve(ComposePost(Subject(env), stamp, NormalizeBody(BodySource(env, useHtml, convert))),
                         slug, io, env.inlines, env.others) == Err(r.error)
    ensures var slug := MsgSlug(sum, Subject(env));
      r.Ok? ==> r.value.path == PostPath(day, slug)
    ensures var slug := MsgSlug(sum, Subject(env));
      r.Ok? ==> r.value.assets == AssetPaths(slug, 1, NumImages(env.inlines) + NumImages(env.others))
    ensures var slug := MsgSlug(sum, Subject(env));
      var doc := ComposePost(Subject(env), stamp, NormalizeBody(BodySource(env, useHtml, convert)));
      r.Ok? ==> r.value.text == Substituted(doc, slug, 1, env.inlines, |env.inlines|)
                                + AppendedLines(slug, 1 + NumImages(env.inlines), env.others, |env.others|)
  {
    var subject := Subject(env);
    var body := NormalizeBody(BodySource(env, useHtml, convert));
    var text := ComposePost(subject, stamp, body);
    var slug := MsgSlug(sum, subject);
    var resolved := ResolveAttachments(text, slug, io, env.inlines, env.others);
    if resolved.Err? {
      return Err(resolved.error);
    }
    ResolveText(text, slug, io, env.inlines, env.others);
    var file := PostPath(day, slug);
    r := Ok(Entry(file, resolved.value.text, resolved.value.staged));
  }
}
