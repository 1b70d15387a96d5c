/** A row of the news list: the lead image picked from a message's attachments, and
    what the row shows (title, snippet, date, author, unread dot, separator). */
module NewsItem {
  import opened Wrappers
  import opened Strings

  datatype AttachmentType = File | Link

  datatype Attachment = Attachment(kind: AttachmentType, name: string, url: string)

  /** The message fields the row reads. */
  datatype NewsMessage = NewsMessage(
    title: string,
    content: Option<string>,
    date: string,
    author: string,
    read: bool,
    attachments: seq<Attachment>)

  // ---------------------------------------------------------------------------
  // Lead image
  // ---------------------------------------------------------------------------

  /** `name.split(".").pop()?.split("?")[0].toLowerCase()`: the text after the last dot
      (the whole name when there is none), cut at the first "?", in lower case. */
  function Extension(name: string): (e: string)
    ensures '.' !in e && '?' !in e
    ensures |e| <= |name|
  {
    ToLower(FirstPiece(LastPiece(name, '.'), '?'))
  }

  const ImageExtensions: seq<string> := ["jpg", "jpeg", "png"]

  /** The predicate given to `attachments.find`: a file whose extension is non-empty
      and one of jpg, jpeg and png. As none of the three is empty, a file qualifies
      exactly when its extension is one of them, and a link never does. */
  function IsLeadImage(a: Attachment): (b: bool)
    ensures b <==> a.kind == File && Extension(a.name) in ImageExtensions
  {
    if a.kind != File then false
    else
      var extension := Extension(a.name);
      if extension == "" then false
      else extension in ImageExtensions
  }

  /** `attachments.find(...)`, as the index of the attachment found. */
  function FindLeadImage(attachments: seq<Attachment>): (r: Option<nat>)
    ensures r.Some? ==> r.value < |attachments| && IsLeadImage(attachments[r.value])
    ensures r.Some? ==> forall j :: 0 <= j < r.value ==> !IsLeadImage(attachments[j])
    ensures r.None? ==> forall j :: 0 <= j < |attachments| ==> !IsLeadImage(attachments[j])
  {
    FindLeadImageFrom(attachments, 0)
  }

  /** The search, from index `from` on. */
  function FindLeadImageFrom(attachments: seq<Attachment>, from: nat): (r: Option<nat>)
    requires from <= |attachments|
    ensures r.Some? ==> from <= r.value < |attachments| && IsLeadImage(attachments[r.value])
    ensures r.Some? ==> forall j :: from <= j < r.value ==> !IsLeadImage(attachments[j])
    ensures r.None? ==> forall j :: from <= j < |attachments| ==> !IsLeadImage(attachments[j])
    decreases |attachments| - from
  {
    if from == |attachments| then None
    else if IsLeadImage(attachments[from]) then Some(from)
    else FindLeadImageFrom(attachments, from + 1)
  }

  /** `newsImage`: the first attachment that qualifies, if any. */
  function NewsImage(attachments: seq<Attachment>): (r: Option<Attachment>)
    ensures r.Some? <==> exists j :: 0 <= j < |attachments| && IsLeadImage(attachments[j])
    ensures r.Some? ==> r.value.kind == File && Extension(r.value.name) in ImageExtensions
    ensures r.Some? ==> FindLeadImage(attachments).Some? && r.value == attachments[FindLeadImage(attachments).value]
  {
    match FindLeadImage(attachments)
    case None => None
    case Some(i) => Some(attachments[i])
  }

  /** The extension of `<stem>.<ext>?<query>` is `ext` in lower case, whatever the stem
      holds, when neither `ext` nor `query` holds a dot. */
  lemma ExtensionWithQuery(stem: string, ext: string, query: string)
    requires '.' !in ext && '?' !in ext && '.' !in query
    ensures Extension(stem + "." + ext + "?" + query) == ToLower(ext)
  {
    assert stem + "." + ext + "?" + query == stem + ['.'] + (ext + "?" + query);
    LastPieceAfter(stem, '.', ext + "?" + query);
    assert ext + "?" + query == ext + ['?'] + query;
    FirstPieceBefore(ext, '?', query);
  }

  /** The extension of `<stem>.<ext>` is `ext` in lower case. */
  lemma ExtensionPlain(stem: string, ext: string)
    requires '.' !in ext && '?' !in ext
    ensures Extension(stem + "." + ext) == ToLower(ext)
  {
    assert stem + "." + ext == stem + ['.'] + ext;
    LastPieceAfter(stem, '.', ext);
    FirstPieceWhole(ext, '?');
  }

  /** A name without a dot is its own extension, up to the first "?". */
  lemma ExtensionNoDot(name: string)
    requires '.' !in name && '?' !in name
    ensures Extension(name) == ToLower(name)
  {
    LastPieceWhole(name, '.');
    FirstPieceWhole(name, '?');
  }

  /** A dot inside the query string wins: the text after it is taken as the extension. */
  lemma ExtensionDotInQuery()
    ensures Extension("photo.jpg?v=1.5") == "5"
  {
    assert "photo.jpg?v=1.5" == "photo.jpg?v=1" + ['.'] + "5";
    assert '.' !in "5" && '?' !in "5";
    LastPieceAfter("photo.jpg?v=1", '.', "5");
    FirstPieceWhole("5", '?');
  }

  /** A non-qualifying attachment followed by a qualifying one: the second is picked. */
  lemma SecondPicked(a: Attachment, b: Attachment)
    requires !IsLeadImage(a) && IsLeadImage(b)
    ensures FindLeadImage([a, b]) == Some(1)
  {
    var list := [a, b];
    assert FindLeadImageFrom(list, 1) == Some(1);
    assert FindLeadImageFrom(list, 0) == FindLeadImageFrom(list, 1);
  }

  /** A PDF file never qualifies, whatever its stem. */
  lemma PdfNotLeadImage(stem: string, url: string)
    ensures !IsLeadImage(Attachment(File, stem + ".pdf", url))
  {
    PdfExtension(stem);
    assert "pdf" !in ImageExtensions;
  }

  lemma PdfExtension(stem: string)
    ensures Extension(stem + ".pdf") == "pdf"
  {
    assert '.' !in "pdf" && '?' !in "pdf";
    ExtensionPlain(stem, "pdf");
    assert stem + "." + "pdf" == stem + ".pdf";
    assert ToLower("pdf") == "pdf" by {
      var r := ToLower("pdf");
      assert r[0] == LowerChar('p') == 'p';
      assert r[1] == LowerChar('d') == 'd';
      assert r[2] == LowerChar('f') == 'f';
    }
  }

  /** A file with an upper-case PNG extension followed by a query string without a dot
      qualifies, whatever its stem. */
  lemma PngWithQueryLeadImage(stem: string, query: string, url: string)
    requires '.' !in query
    ensures IsLeadImage(Attachment(File, stem + ".PNG?" + query, url))
  {
    PngQueryExtension(stem, query);
    assert "png" in ImageExtensions by {
      assert ImageExtensions[2] == "png";
    }
  }

  lemma PngQueryExtension(stem: string, query: string)
    requires '.' !in query
    ensures Extension(stem + ".PNG?" + query) == "png"
  {
    assert '.' !in "PNG" && '?' !in "PNG";
    ExtensionWithQuery(stem, "PNG", query);
    assert stem + "." + "PNG" + "?" + query == stem + ".PNG?" + query;
    assert ToLower("PNG") == "png" by {
      var r := ToLower("PNG");
      assert r[0] == LowerChar('P') == 'p';
      assert r[1] == LowerChar('N') == 'n';
      assert r[2] == LowerChar('G') == 'g';
    }
  }

  /** Of a PDF followed by a PNG with a dot-free query string, whatever their stems,
      the PNG is the lead image. */
  lemma PdfThenPng(pdfStem: string, pngStem: string, query: string, u1: string, u2: string)
    requires '.' !in query
    ensures FindLeadImage([Attachment(File, pdfStem + ".pdf", u1), Attachment(File, pngStem + ".PNG?" + query, u2)]) == Some(1)
  {
    PdfNotLeadImage(pdfStem, u1);
    PngWithQueryLeadImage(pngStem, query, u2);
    SecondPicked(Attachment(File, pdfStem + ".pdf", u1), Attachment(File, pngStem + ".PNG?" + query, u2));
  }

  // ---------------------------------------------------------------------------
  // The row
  // ---------------------------------------------------------------------------

  /** What a row shows. */
  datatype Row = Row(
    image: Option<Attachment>,
    unreadDot: bool,
    title: Option<string>,
    snippet: Option<string>,
    date: string,
    author: string,
    separator: bool)

  const ImagePlaceholder := "Contient une image"

  /** The content line: shown when the content is non-empty; the placeholder when the
      content embeds an image tag, the summary of the content otherwise. */
  function Snippet(content: Option<string>, summarise: string -> string): (r: Option<string>)
    ensures r.Some? <==> content.Some? && content.value != ""
    ensures r.Some? && Contains(content.value, "<img") ==> r.value == ImagePlaceholder
    ensures r.Some? && !Contains(content.value, "<img") ==> r.value == summarise(content.value)
  {
    if content.None? || content.value == "" then None
    else if !Contains(content.value, "<img") then Some(summarise(content.value))
    else Some(ImagePlaceholder)
  }

  /** The row for message `index` of a list of `count` messages; `summarise` and
      `formatDate` stand for the news-summary and date formatters. */
  function NewsRow(index: int, message: NewsMessage, count: nat, isED: bool,
                   summarise: string -> string, formatDate: string -> string): (row: Row)
    ensures row.image == NewsImage(message.attachments)
    ensures row.title.Some? <==> message.title != ""
    ensures row.title.Some? ==> row.title.value == message.title
    ensures row.separator <==> index != count - 1
    ensures row.unreadDot <==> !message.read && !isED
    ensures row.snippet == Snippet(message.content, summarise)
    ensures row.date == formatDate(message.date) && row.author == message.author
  {
    Row(
      NewsImage(message.attachments),
      !message.read && !isED,
      if message.title != "" then Some(message.title) else None,
      Snippet(message.content, summarise),
      formatDate(message.date),
      message.author,
      index != count - 1)
  }

  /** Down a list, every row but the last is followed by a separator. */
  lemma SeparatorAllButLast(messages: seq<NewsMessage>, isED: bool,
                            summarise: string -> string, formatDate: string -> string)
    ensures forall i :: 0 <= i < |messages| ==>
      (NewsRow(i, messages[i], |messages|, isED, summarise, formatDate).separator <==> i < |messages| - 1)
  {
  }
}
