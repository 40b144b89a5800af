/**
  The header-writing stage (WebWorker.writeHTTPHeader): a status line that
  depends only on whether the requested file exists, then the same four
  fields in both cases and the blank line that ends the header. The date is
  the already formatted GMT date-time of the response.
*/
module HeaderWriter {
  const OkStatus := "HTTP/1.1 200 OK"
  const NotFoundStatus := "HTTP/1.1 404 Not Found !"
  const ServerField := "Server: Jon's very own server"
  const ConnectionField := "Connection: close"

  function StatusLine(found: bool): string
  {
    if found then OkStatus else NotFoundStatus
  }

  /** The header text: the status line, then the part both branches write alike. */
  function HTTPHeader(found: bool, date: string, contentType: string): string
  {
    StatusLine(found) + "\n" + HeaderFields(date, contentType)
  }

  /** The fields after the status line and the blank line that ends the header. */
  function HeaderFields(date: string, contentType: string): string
  {
    "Date: " + date + "\n" + (
    ServerField + "\n" + (
    ConnectionField + "\n" + (
    "Content-Type: " + contentType + "\n" + "\n")))
  }

  /** The lines of a text: the pieces between its '\n' characters. */
  function SplitLines(s: string): (r: seq<string>)
    ensures |r| >= 1
    ensures forall i :: 0 <= i < |r| ==> '\n' !in r[i]
  {
    if s == [] then [""]
    else
      var rest := SplitLines(s[1..]);
      if s[0] == '\n' then [""] + rest
      else [[s[0]] + rest[0]] + rest[1..]
  }

  /** A line without '\n', then '\n', then the rest: the line comes first. */
  lemma {:induction false} SplitLinesCons(x: string, y: string)
    requires '\n' !in x
    ensures SplitLines(x + "\n" + y) == [x] + SplitLines(y)
    decreases |x|
  {
    if x == [] {
      assert x + "\n" + y == "\n" + y;
      assert ("\n" + y)[1..] == y;
    } else {
      SplitLinesCons(x[1..], y);
      assert (x + "\n" + y)[1..] == x[1..] + "\n" + y;
      assert x == [x[0]] + x[1..];
    }
  }

  /** The shared part reads back as the four fields and the blank line. */
  lemma FieldLines(date: string, contentType: string)
    requires '\n' !in date && '\n' !in contentType
    ensures SplitLines(HeaderFields(date, contentType))
      == ["Date: " + date, ServerField, ConnectionField, "Content-Type: " + contentType, "", ""]
  {
    SplitLinesCons("", "");
    assert "" + "\n" + "" == "\n";
    var r4 := "Content-Type: " + contentType + "\n" + "\n";
    SplitLinesCons("Content-Type: " + contentType, "\n");
    var r3 := ConnectionField + "\n" + r4;
    SplitLinesCons(ConnectionField, r4);
    var r2 := ServerField + "\n" + r3;
    SplitLinesCons(ServerField, r3);
    SplitLinesCons("Date: " + date, r2);
  }

  /**
    Read back line by line, the header is the status line, the Date,
    Server, Connection and Content-Type fields in this order, and an empty
    line (followed by the empty rest after the final '\n'). Only the status
    line depends on existence; the content type is written even on 404.
  */
  lemma HeaderLines(found: bool, date: string, contentType: string)
    requires '\n' !in date && '\n' !in contentType
    ensures SplitLines(HTTPHeader(found, date, contentType))
      == [StatusLine(found), "Date: " + date, ServerField, ConnectionField,
          "Content-Type: " + contentType, "", ""]
  {
    FieldLines(date, contentType);
    SplitLinesCons(StatusLine(found), HeaderFields(date, contentType));
  }
}
