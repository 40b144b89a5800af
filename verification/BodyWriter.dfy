/**
  The body-writing stage (WebWorker.writeContent). An existing file of type
  text/html is sent after a fixed preamble, line by line, with template
  expansion; an existing file whose type mentions "image" is copied byte for
  byte; in every other case a fixed 404 page is sent.
*/
module BodyWriter {
  import opened JavaText
  import RequestReader

  newtype byte = x: int | 0 <= x < 256

  /** What goes out after the header: text, or the raw bytes of an image. */
  datatype Body = Text(text: string) | Raw(bytes: seq<byte>)

  const DateToken := "<cs371date>"
  const ServerToken := "<cs371server>"
  const ServerId := "Server's ID String: Lei's Server Starts !"
  const LineBreak := "<br>"
  const SuccessPreamble := "<html><head></head><body>\n" + "<h3>My web server works!</h3>\n" + "</body></html>\n"
  const NotFoundPage := "<html><head></head><body>\n" + "<h3>404 Not Found !</h3>\n" + "</body></html>\n"

  /**
    What the loop writes for one line of an HTML file, `now` being the text of
    the clock at that moment: a copy with the date token replaced if the line
    holds it, a copy with the server token replaced if the line holds it, and
    the line itself, each followed by a line break.
  */
  function ExpandLine(line: string, now: string): string
  {
    (if Contains(line, DateToken) then ReplaceAll(line, DateToken, now) + LineBreak else "")
    + (if Contains(line, ServerToken) then ReplaceAll(line, ServerToken, ServerId) + LineBreak else "")
    + line + LineBreak
  }

  /** The expansion of all the lines of a file, in file order; stamps[i] is the clock at line i. */
  function HtmlLines(lines: seq<string>, stamps: seq<string>): string
    requires |stamps| == |lines|
  {
    if lines == [] then "" else ExpandLine(lines[0], stamps[0]) + HtmlLines(lines[1..], stamps[1..])
  }

  /** Expanding one more line appends its expansion. */
  lemma {:induction false} HtmlLinesSnoc(lines: seq<string>, stamps: seq<string>, line: string, now: string)
    requires |stamps| == |lines|
    ensures HtmlLines(lines + [line], stamps + [now]) == HtmlLines(lines, stamps) + ExpandLine(line, now)
    decreases |lines|
  {
    if lines == [] {
      assert lines + [line] == [line];
      assert stamps + [now] == [now];
    } else {
      HtmlLinesSnoc(lines[1..], stamps[1..], line, now);
      assert (lines + [line])[1..] == lines[1..] + [line];
      assert (stamps + [now])[1..] == stamps[1..] + [now];
    }
  }

  /** One turn of the copy loop: the writes for one line, in the order writeContent makes them. */
  method WriteLine(line: string, now: string) returns (out: string)
    ensures out == ExpandLine(line, now)
  {
    out := "";
    if Contains(line, DateToken) {
      out := out + ReplaceAll(line, DateToken, now) + LineBreak;
    }
    if Contains(line, ServerToken) {
      out := out + ReplaceAll(line, ServerToken, ServerId) + LineBreak;
    }
    out := out + line + LineBreak;
  }

  /** The copy loop of writeContent: each line's expansion is appended to the output. */
  method WriteHtmlLines(lines: seq<string>, stamps: seq<string>) returns (out: string)
    requires |stamps| == |lines|
    ensures out == HtmlLines(lines, stamps)
  {
    out := "";
    var i := 0;
    while i < |lines|
      invariant 0 <= i <= |lines|
      invariant out == HtmlLines(lines[..i], stamps[..i])
    {
      var piece := WriteLine(lines[i], stamps[i]);
      HtmlLinesSnoc(lines[..i], stamps[..i], lines[i], stamps[i]);
      assert lines[..i + 1] == lines[..i] + [lines[i]];
      assert stamps[..i + 1] == stamps[..i] + [stamps[i]];
      out := out + piece;
      i := i + 1;
    }
    assert lines[..i] == lines && stamps[..i] == stamps;
  }

  /** contentType.toLowerCase().contains("image") */
  predicate IsImage(contentType: string)
  {
    Contains(ToLower(contentType), "image")
  }

  /** The body writeContent sends, by existence of the file and its content type. */
  method WriteContent(found: bool, contentType: string, lines: seq<string>, stamps: seq<string>,
                      bytes: seq<byte>) returns (body: Body)
    requires |stamps| == |lines|
    ensures found && contentType == RequestReader.HtmlType
      ==> body == Text(SuccessPreamble + HtmlLines(lines, stamps))
    ensures found && contentType != RequestReader.HtmlType && IsImage(contentType)
      ==> body == Raw(bytes)
    ensures !found || (contentType != RequestReader.HtmlType && !IsImage(contentType))
      ==> body == Text(NotFoundPage)
  {
    if found && contentType == RequestReader.HtmlType {
      var text := WriteHtmlLines(lines, stamps);
      body := Text(SuccessPreamble + text);
    } else if found && IsImage(contentType) {
      body := Raw(bytes);
    } else {
      body := Text(NotFoundPage);
    }
  }

  /** Each line followed by a line break, in order: the reference for a file without tokens. */
  function WithBreaks(lines: seq<string>): string
  {
    if lines == [] then "" else lines[0] + LineBreak + WithBreaks(lines[1..])
  }

  /** A line without tokens is written once, with its line break. */
  lemma ExpandPlainLine(line: string, now: string)
    requires !Occurs(line, DateToken) && !Occurs(line, ServerToken)
    ensures ExpandLine(line, now) == line + LineBreak
  {
    ContainsIffOccurs(line, DateToken);
    ContainsIffOccurs(line, ServerToken);
  }

  /**
    A file without tokens is reproduced line for line, each line once and in
    order, with a line break after each; the clock plays no part.
  */
  lemma {:induction false} PlainFileReproduced(lines: seq<string>, stamps: seq<string>)
    requires |stamps| == |lines|
    requires forall i :: 0 <= i < |lines| ==> !Occurs(lines[i], DateToken) && !Occurs(lines[i], ServerToken)
    ensures HtmlLines(lines, stamps) == WithBreaks(lines)
    decreases |lines|
  {
    if lines != [] {
      ExpandPlainLine(lines[0], stamps[0]);
      assert forall i :: 0 <= i < |lines[1..]| ==> lines[1..][i] == lines[i + 1];
      PlainFileReproduced(lines[1..], stamps[1..]);
    }
  }

  /**
    An occurrence of the date token and one of the server token never
    overlap: both open with '<' and hold no other '<', and they differ at
    their seventh character.
  */
  lemma TokensApart(line: string, d: int, sv: int)
    requires OccursAt(line, DateToken, d) && OccursAt(line, ServerToken, sv)
    ensures sv + |ServerToken| <= d || d + |DateToken| <= sv
  {
    TokenMarks(line, DateToken, d);
    TokenMarks(line, ServerToken, sv);
  }

  /**
    Where a token shaped like the two template tokens occurs, the line has '<'
    at its start, no '<' inside it, and the token's seventh character.
  */
  lemma TokenMarks(line: string, t: string, k: int)
    requires t == DateToken || t == ServerToken
    requires OccursAt(line, t, k)
    ensures line[k] == '<' && line[k + 6] == t[6]
    ensures forall j :: k < j < k + |t| ==> line[j] != '<'
  {
    TokenAt(line, t, k);
    forall j | k < j < k + |t| ensures line[j] != '<' {
      assert line[k + (j - k)] == t[j - k];
    }
  }

  /** An occurrence of `t` at `k` puts each character of `t` in its place. */
  lemma TokenAt(line: string, t: string, k: int)
    requires OccursAt(line, t, k)
    ensures forall i :: 0 <= i < |t| ==> line[k + i] == t[i]
  {
    forall i | 0 <= i < |t| ensures line[k + i] == t[i] {
      assert line[k..k + |t|][i] == line[k + i];
    }
  }

  /**
    A line in which the date token occurs only at `d` and the server token
    only at `sv`, in either order and among any other markup, is written
    three times: with the date filled in, with the server identity filled in,
    and unchanged.
  */
  lemma ExpandBothTokens(line: string, now: string, d: int, sv: int)
    requires OccursAt(line, DateToken, d) && forall i :: OccursAt(line, DateToken, i) ==> i == d
    requires OccursAt(line, ServerToken, sv) && forall i :: OccursAt(line, ServerToken, i) ==> i == sv
    ensures ExpandLine(line, now)
      == line[..d] + now + line[d + |DateToken|..] + LineBreak
       + (line[..sv] + ServerId + line[sv + |ServerToken|..] + LineBreak)
       + (line + LineBreak)
  {
    ContainsIffOccurs(line, DateToken);
    ContainsIffOccurs(line, ServerToken);
    ReplaceAllSingle(line, DateToken, now, d);
    ReplaceAllSingle(line, ServerToken, ServerId, sv);
  }

  /**
    In the date-filled copy the server token is still in place, and in the
    server-filled copy the date token is: each replacement leaves the other
    token alone, shifted only when it came after the replaced one.
  */
  lemma CopiesKeepOtherToken(line: string, now: string, d: int, sv: int)
    requires OccursAt(line, DateToken, d) && OccursAt(line, ServerToken, sv)
    ensures OccursAt(line[..d] + now + line[d + |DateToken|..], ServerToken,
                     if sv < d then sv else sv - |DateToken| + |now|)
    ensures OccursAt(line[..sv] + ServerId + line[sv + |ServerToken|..], DateToken,
                     if d < sv then d else d - |ServerToken| + |ServerId|)
  {
    TokensApart(line, d, sv);
    SpliceKeeps(line, d, |DateToken|, now, ServerToken, sv);
    SpliceKeeps(line, sv, |ServerToken|, ServerId, DateToken, d);
  }
}
