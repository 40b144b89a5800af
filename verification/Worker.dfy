/**
  The web worker: one object per client connection. Its read loop fills the
  two fields the later stages use; Respond runs the three stages in order,
  as the worker's run method does, with the outside world (the request
  lines, whether the named file exists, its lines and bytes, the clock)
  passed in.
*/
module Worker {
  import opened Wrappers
  import opened JavaText
  import opened RequestReader
  import opened HeaderWriter
  import opened BodyWriter

  /** The content type the read loop keeps beside a file name (null while the name is null). */
  function ContentTypeOf(fileName: Option<string>): Option<string>
  {
    match fileName
    case None => None
    case Some(name) => Some(InferContentType(name))
  }

  class WebWorker {
    var fileName: Option<string>
    var contentType: Option<string>

    /** The content type always reflects the current file name. */
    ghost predicate Valid()
      reads this
    {
      contentType == ContentTypeOf(fileName)
    }

    constructor ()
      ensures fileName == None && contentType == None
      ensures Valid()
    {
      fileName := None;
      contentType := None;
    }

    /**
      readHTTPRequest: read request lines until an empty line or the first
      exception, parsing every GET line and inferring the content type after
      every line read.
    */
    method ReadHTTPRequest(lines: seq<string>)
      requires Valid()
      modifies this
      ensures Valid()
      ensures fileName == ReadFileName(lines, old(fileName))
    {
      var i := 0;
      while true
        invariant 0 <= i <= |lines|
        invariant Valid()
        invariant ReadFileName(lines[i..], fileName) == ReadFileName(lines, old(fileName))
        decreases |lines| - i
      {
        if i == |lines| {
          // out of lines: the model ends the loop where the program would keep polling ready()
          break;
        }
        var line := lines[i];
        assert lines[i..][0] == line && lines[i..][1..] == lines[i + 1..];
        if Contains(line, "GET") {
          var extracted := ExtractFileName(line);
          if extracted.None? {
            // substring threw
            break;
          }
          fileName := extracted;
        }
        if fileName.None? {
          // fileName.toLowerCase() threw
          break;
        }
        contentType := Some(InferContentType(fileName.value));
        if line == "" {
          break;
        }
        i := i + 1;
      }
    }
  }

  /** Every inferred type is either text/html or a type the body writer treats as an image. */
  lemma InferredTypeKinds(fileName: string)
    ensures InferContentType(fileName) == HtmlType
      || (InferContentType(fileName) != HtmlType && IsImage(InferContentType(fileName)))
  {
    var ct := InferContentType(fileName);
    if ct != HtmlType {
      assert ct[..5] == "image";
      assert ToLower(ct)[..5] == ct[..5];
      assert OccursAt(ToLower(ct), "image", 0);
      ContainsIffOccurs(ToLower(ct), "image");
    }
  }

  /** The success page never reads as the 404 page, whatever lines follow its preamble. */
  lemma SuccessIsNotNotFound(text: string)
    ensures SuccessPreamble + text != NotFoundPage
  {
    assert (SuccessPreamble + text)[30] == 'M';
    assert NotFoundPage[30] == '4';
  }

  /** What the worker sends: the header text, then the body. */
  datatype Response = Response(header: string, body: Body)

  /**
    run: read the request, then write the header and the body for the file it
    names. `found` tells whether that file exists, `lines` and `bytes` are its
    content, `date` is the formatted time for the header and stamps[i] the
    clock while line i of the file is expanded. None: no file name was read,
    so opening the file throws before anything is written.
  */
  method Respond(request: seq<string>, found: bool, date: string, lines: seq<string>,
                 stamps: seq<string>, bytes: seq<byte>) returns (r: Option<Response>)
    requires |stamps| == |lines|
    ensures r.None? <==> ReadFileName(request, None).None?
    ensures r.Some? ==>
      var contentType := InferContentType(ReadFileName(request, None).value);
      && r.value.header == HTTPHeader(found, date, contentType)
      && (found && contentType == HtmlType ==> r.value.body == Text(SuccessPreamble + HtmlLines(lines, stamps)))
      && (found && contentType != HtmlType ==> r.value.body == Raw(bytes))
      && (!found ==> r.value.body == Text(NotFoundPage))
    ensures r.Some? ==> (StatusLine(found) == OkStatus <==> r.value.body != Text(NotFoundPage))
  {
    var worker := new WebWorker();
    worker.ReadHTTPRequest(request);
    if worker.fileName.None? {
      r := None;
      return;
    }
    var contentType := worker.contentType.value;
    InferredTypeKinds(worker.fileName.value);
    var header := HTTPHeader(found, date, contentType);
    var body := WriteContent(found, contentType, lines, stamps, bytes);
    if found && contentType == HtmlType {
      SuccessIsNotNotFound(HtmlLines(lines, stamps));
    }
    r := Some(Response(header, body));
  }
}
