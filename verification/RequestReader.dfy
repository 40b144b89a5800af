/**
  The request-reading stage of a web worker (WebWorker.readHTTPRequest):
  the position-based extraction of the requested file name from a request
  line, the content type inferred from that name, and the effect of the
  whole read loop on the file name, as functions of the request lines.
  The loop itself, with the two fields it updates, is Worker.WebWorker.
*/
module RequestReader {
  import opened Wrappers
  import opened JavaText

  const GifType := "image/gif"
  const JpegType := "image/jpeg"
  const PngType := "image/png"
  const HtmlType := "text/html"

  /**
    The file name in a request line such as "GET /dir/index.html HTTP/1.1":
    cut the line at its last '/', then keep what lies after the last '/' of
    that head and one character before its first "HTTP". None stands for the
    StringIndexOutOfBoundsException one of the two substring calls throws.
  */
  function ExtractFileName(line: string): Option<string>
  {
    match Substring(line, 0, LastIndexOf(line, '/'))
    case None => None
    case Some(head) =>
      Substring(head, LastIndexOf(head, '/') + 1, IndexOf(head, "HTTP") - 1)
  }

  /**
    A well-formed request line "<prefix>/<name> HTTP/<version>" yields exactly
    <name>: only the last path segment survives.
  */
  lemma ExtractRequestLine(prefix: string, name: string, version: string)
    requires '/' !in name && '/' !in version
    requires !Occurs(prefix + "/" + name, "HTTP")
    ensures ExtractFileName(prefix + "/" + name + " HTTP/" + version) == Some(name)
  {
    var head := prefix + "/" + name;
    var line := head + " HTTP/" + version;
    var k := |head| + 5;
    assert line[k] == '/';
    forall i | k < i < |line| ensures line[i] != '/' {
      assert line[i] == version[i - k - 1];
    }
    LastIndexOfAt(line, '/', k);
    var cut := line[..k];
    assert cut == head + " HTTP";
    assert cut[|prefix|] == '/';
    forall i | |prefix| < i < |cut| ensures cut[i] != '/' {
      if i < |head| {
        assert cut[i] == name[i - |prefix| - 1];
      }
    }
    LastIndexOfAt(cut, '/', |prefix|);
    assert OccursAt(cut, "HTTP", |head| + 1);
    forall j | 0 <= j < |head| + 1 ensures !OccursAt(cut, "HTTP", j) {
      if j + 4 <= |head| {
        assert cut[j..j + 4] == head[j..j + 4];
        assert !OccursAt(head, "HTTP", j);
      } else if j + 4 <= |cut| {
        // the window covers the space before "HTTP"
        assert cut[j..j + 4][|head| - j] == ' ';
        assert "HTTP"[|head| - j] != ' ';
      }
    }
    IndexOfFirst(cut, "HTTP", |head| + 1);
    assert cut[|prefix| + 1..|head|] == name;
  }

  /** A line without any '/' cannot be cut: extraction throws. */
  lemma ExtractFailsWithoutSlash(line: string)
    requires '/' !in line
    ensures ExtractFileName(line) == None
  {
    LastIndexOfSpec(line, '/');
  }

  /**
    When the text before the last '/' holds no "HTTP", the end index is
    -2 and extraction throws.
  */
  lemma ExtractFailsWithoutHttp(head: string, tail: string)
    requires '/' !in tail
    requires !Occurs(head, "HTTP")
    ensures ExtractFileName(head + "/" + tail) == None
  {
    var line := head + "/" + tail;
    forall i | |head| < i < |line| ensures line[i] != '/' {
      assert line[i] == tail[i - |head| - 1];
    }
    LastIndexOfAt(line, '/', |head|);
    assert line[..|head|] == head;
    ContainsIffOccurs(head, "HTTP");
  }

  /**
    When "HTTP" already occurs before the directory holding the name, the
    begin index exceeds the end index and extraction throws.
  */
  lemma ExtractFailsWhenHttpPrecedesName(dirs: string, seg: string, tail: string)
    requires '/' !in seg && '/' !in tail
    requires Occurs(dirs, "HTTP")
    ensures ExtractFileName(dirs + "/" + seg + "/" + tail) == None
  {
    var head := dirs + "/" + seg;
    var line := head + "/" + tail;
    forall i | |head| < i < |line| ensures line[i] != '/' {
      assert line[i] == tail[i - |head| - 1];
    }
    LastIndexOfAt(line, '/', |head|);
    assert line[..|head|] == head;
    forall i | |dirs| < i < |head| ensures head[i] != '/' {
      assert head[i] == seg[i - |dirs| - 1];
    }
    LastIndexOfAt(head, '/', |dirs|);
    var j :| OccursAt(dirs, "HTTP", j);
    assert head[j..j + 4] == dirs[j..j + 4];
    assert OccursAt(head, "HTTP", j);
    IndexOfFromSpec(head, "HTTP", 0);
  }

  /** The text before the last '/' of a line that has one. */
  ghost function Head(line: string): string
    requires '/' in line
  {
    LastIndexOfSpec(line, '/');
    line[..LastIndexOf(line, '/')]
  }

  /**
    Extraction throws exactly when the line has no '/', or when the first
    "HTTP" of the head starts no more than one position after the head's last
    '/' (the begin index then passes the end index; a name that itself starts
    with "HTTP", as in "GET /HTTPx HTTP/1.1", is one such case).
  */
  lemma ExtractFailsIff(line: string)
    ensures ExtractFileName(line).None?
      <==> '/' !in line || IndexOf(Head(line), "HTTP") <= LastIndexOf(Head(line), '/') + 1
  {
    LastIndexOfSpec(line, '/');
    if '/' in line {
      var head := Head(line);
      LastIndexOfSpec(head, '/');
      IndexOfFromSpec(head, "HTTP", 0);
    }
  }

  /** An occurrence inside a slice is an occurrence in the whole. */
  lemma OccursInSlice(s: string, t: string, b: int, e: int, j: int)
    requires 0 <= b <= e <= |s|
    requires OccursAt(s[b..e], t, j)
    ensures OccursAt(s, t, b + j)
  {
    var slice := s[b..e];
    assert 0 <= j && j + |t| <= |slice|;
    var inner, outer := slice[j..j + |t|], s[b + j..b + j + |t|];
    forall k | 0 <= k < |t| ensures inner[k] == outer[k] {
      assert slice[j + k] == s[b + j + k];
    }
    assert inner == outer;
  }

  /** Whatever extraction yields holds no '/' and no "HTTP". */
  lemma ExtractedNameShape(line: string)
    requires ExtractFileName(line).Some?
    ensures '/' !in ExtractFileName(line).value
    ensures !Occurs(ExtractFileName(line).value, "HTTP")
  {
    LastIndexOfSpec(line, '/');
    var head := line[..LastIndexOf(line, '/')];
    LastIndexOfSpec(head, '/');
    IndexOfFromSpec(head, "HTTP", 0);
    var b, e := LastIndexOf(head, '/') + 1, IndexOf(head, "HTTP") - 1;
    assert ExtractFileName(line) == Some(head[b..e]);
    BetweenSlashAndHttp(head, b, e);
  }

  /**
    A slice that starts after the last '/' and ends before the first "HTTP"
    holds neither.
  */
  lemma BetweenSlashAndHttp(head: string, b: int, e: int)
    requires 0 <= b <= e <= |head|
    requires forall i :: b <= i < |head| ==> head[i] != '/'
    requires forall j :: 0 <= j < e + 1 ==> !OccursAt(head, "HTTP", j)
    ensures '/' !in head[b..e]
    ensures !Occurs(head[b..e], "HTTP")
  {
    var name := head[b..e];
    forall i | 0 <= i < |name| ensures name[i] != '/' {
      assert name[i] == head[b + i];
    }
    forall j | OccursAt(name, "HTTP", j) ensures false {
      OccursInSlice(head, "HTTP", b, e, j);
    }
  }

  /** fileName.toLowerCase().contains(t) for a lower-case `t`. */
  predicate NameContains(fileName: string, t: string)
  {
    Contains(ToLower(fileName), t)
  }

  /**
    The content type of a file name: ".gif" before ".jpeg" before ".png",
    compared without regard to case (readHTTPRequest lowers ".GIF", ".JPEG" and
    ".PNG" to these), and text/html for everything else.
  */
  function InferContentType(fileName: string): string
  {
    if NameContains(fileName, ".gif") then GifType
    else if NameContains(fileName, ".jpeg") then JpegType
    else if NameContains(fileName, ".png") then PngType
    else HtmlType
  }

  /** The checks come in a fixed order and look at the lower-cased name. */
  lemma InferContentTypeOrder(fileName: string)
    ensures Occurs(ToLower(fileName), ".gif") ==> InferContentType(fileName) == GifType
    ensures !Occurs(ToLower(fileName), ".gif") && Occurs(ToLower(fileName), ".jpeg")
      ==> InferContentType(fileName) == JpegType
    ensures (!Occurs(ToLower(fileName), ".gif") && !Occurs(ToLower(fileName), ".jpeg")
             && Occurs(ToLower(fileName), ".png")) ==> InferContentType(fileName) == PngType
    ensures (!Occurs(ToLower(fileName), ".gif") && !Occurs(ToLower(fileName), ".jpeg")
             && !Occurs(ToLower(fileName), ".png")) ==> InferContentType(fileName) == HtmlType
  {
    ContainsIffOccurs(ToLower(fileName), ".gif");
    ContainsIffOccurs(ToLower(fileName), ".jpeg");
    ContainsIffOccurs(ToLower(fileName), ".png");
  }

  /** The case in which a name is written does not change its content type. */
  lemma InferContentTypeIgnoresCase(fileName: string)
    ensures InferContentType(ToUpper(fileName)) == InferContentType(fileName)
    ensures InferContentType(ToLower(fileName)) == InferContentType(fileName)
  {
    LowerOfUpper(fileName);
    LowerIdempotent(fileName);
  }

  /** The file name after one line is read, and whether the loop reads another line. */
  datatype Step = Step(fileName: Option<string>, more: bool)

  /**
    One turn of the read loop, from the file name held before the line (null
    until a GET line is parsed); the content type is always the inference on
    that name:
    - a line holding "GET" whose extraction throws ends the loop, name unchanged;
    - otherwise a line holding "GET" replaces the name;
    - a still null name makes the inference throw, which ends the loop;
    - an empty line ends the loop after the inference.
  */
  function ReadLine(line: string, fileName: Option<string>): Step
  {
    if Contains(line, "GET") && ExtractFileName(line).None? then Step(fileName, false)
    else
      var next := if Contains(line, "GET") then ExtractFileName(line) else fileName;
      Step(next, next.Some? && line != "")
  }

  /**
    The file name the read loop ends with. Running out of lines ends the loop
    here; the program would instead keep polling ready() at that point.
  */
  function ReadFileName(lines: seq<string>, fileName: Option<string>): Option<string>
    decreases |lines|
  {
    if lines == [] then fileName
    else
      var step := ReadLine(lines[0], fileName);
      if step.more then ReadFileName(lines[1..], step.fileName) else step.fileName
  }

  /** A GET line that parses replaces whatever name was held before it. */
  lemma ReadGetLineReplacesName(line: string, rest: seq<string>, fileName: Option<string>)
    requires Contains(line, "GET") && ExtractFileName(line).Some?
    ensures ReadFileName([line] + rest, fileName) == ReadFileName(rest, ExtractFileName(line))
  {
    assert ([line] + rest)[1..] == rest;
  }

  /** A GET line that throws ends the loop and keeps the name held before it. */
  lemma ReadBadGetLineKeepsName(line: string, rest: seq<string>, fileName: Option<string>)
    requires Contains(line, "GET") && ExtractFileName(line).None?
    ensures ReadFileName([line] + rest, fileName) == fileName
  {
  }

  /** Before any GET line, a line without "GET" ends the loop with a null name. */
  lemma ReadNeedsGetFirst(line: string, rest: seq<string>)
    requires !Contains(line, "GET")
    ensures ReadFileName([line] + rest, None) == None
  {
  }

  /** An empty line ends the loop. */
  lemma BlankLineEndsLoop(fileName: Option<string>)
    ensures !ReadLine("", fileName).more
  {
    assert !Contains("", "GET");
  }

  /** Nothing after the first empty line is ever read. */
  lemma {:induction false} ReadStopsAtBlankLine(lines: seq<string>, rest: seq<string>, fileName: Option<string>)
    requires "" in lines
    ensures ReadFileName(lines + rest, fileName) == ReadFileName(lines, fileName)
    decreases |lines|
  {
    var all := lines + rest;
    assert all != [] && all[0] == lines[0];
    var step := ReadLine(lines[0], fileName);
    if lines[0] == "" {
      BlankLineEndsLoop(fileName);
    }
    if step.more {
      assert lines[0] != "" && lines == [lines[0]] + lines[1..];
      assert "" in lines[1..];
      assert all[1..] == lines[1..] + rest;
      ReadStopsAtBlankLine(lines[1..], rest, step.fileName);
      assert ReadFileName(all, fileName) == ReadFileName(all[1..], step.fileName);
    } else {
      assert ReadFileName(all, fileName) == step.fileName;
    }
  }

  /** Non-empty lines without "GET" leave a known name as it is. */
  lemma {:induction false} ReadSkipsHeaders(headers: seq<string>, tail: seq<string>, fileName: Option<string>)
    requires fileName.Some?
    requires forall h :: h in headers ==> h != "" && !Contains(h, "GET")
    ensures ReadFileName(headers + tail, fileName) == ReadFileName(tail, fileName)
    decreases |headers|
  {
    if headers != [] {
      assert headers[0] in headers;
      assert (headers + tail)[0] == headers[0];
      assert (headers + tail)[1..] == headers[1..] + tail;
      assert forall h :: h in headers[1..] ==> h in headers;
      ReadSkipsHeaders(headers[1..], tail, fileName);
    } else {
      assert headers + tail == tail;
    }
  }

  /**
    A request that opens with a GET line and ends its header lines with an
    empty line yields the name in the GET line, whatever the loop held
    before and whatever follows the empty line.
  */
  lemma ReadRequest(get: string, headers: seq<string>, rest: seq<string>, fileName: Option<string>)
    requires Contains(get, "GET") && ExtractFileName(get).Some?
    requires forall h :: h in headers ==> h != "" && !Contains(h, "GET")
    ensures ReadFileName([get] + headers + [""] + rest, fileName) == ExtractFileName(get)
  {
    var name := ExtractFileName(get);
    assert [get] + headers + [""] + rest == [get] + (headers + ([""] + rest));
    ReadGetLineReplacesName(get, headers + ([""] + rest), fileName);
    ReadSkipsHeaders(headers, [""] + rest, name);
  }

  /** `name` is what one of the GET lines in `lines` extracts. */
  ghost predicate FromGetLine(lines: seq<string>, name: Option<string>)
  {
    exists i :: 0 <= i < |lines| && Contains(lines[i], "GET") && ExtractFileName(lines[i]) == name
  }

  /** The loop ends holding its initial name or the name of one of the GET lines. */
  lemma {:induction false} ReadResultOrigin(lines: seq<string>, fileName: Option<string>)
    ensures ReadFileName(lines, fileName) == fileName || FromGetLine(lines, ReadFileName(lines, fileName))
    decreases |lines|
  {
    if lines != [] {
      var line := lines[0];
      var step := ReadLine(line, fileName);
      var r := ReadFileName(lines, fileName);
      if step.fileName != fileName {
        assert Contains(lines[0], "GET") && ExtractFileName(lines[0]) == step.fileName;
        assert FromGetLine(lines, step.fileName);
      }
      if step.more {
        ReadResultOrigin(lines[1..], step.fileName);
        if r != step.fileName {
          var i :| 0 <= i < |lines[1..]| && Contains(lines[1..][i], "GET")
                   && ExtractFileName(lines[1..][i]) == r;
          assert lines[i + 1] == lines[1..][i];
          assert FromGetLine(lines, r);
        }
      }
    }
  }
}
