/** Curl::processResponseHeaders() and the part of Curl::send() that runs
    after the transfer: the combined head-and-body buffer is cut at the
    first blank line, the head is decomposed into a name => value map, and
    the body is marked for JSON decoding when the content type says so. */
module CurlResponse {
  import opened Php

  const CRLF: string := "\r\n"
  const BlankLine: string := "\r\n\r\n"
  const JsonType: string := "application/json"

  // ---------------------------------------------------------------------------
  // One head line

  /** The character class of the pattern ':|\s': a colon or an ASCII
      whitespace character. */
  predicate IsFieldBreak(c: char) {
    c == ':' || c == ' ' || c == '\t' || c == '\n' || c == 11 as char || c == 12 as char || c == '\r'
  }

  /** Position of the first field break in `s`, or |s| when there is none. */
  function FirstBreak(s: string): (i: nat)
    ensures i <= |s|
    ensures forall j :: 0 <= j < i ==> !IsFieldBreak(s[j])
    ensures i < |s| ==> IsFieldBreak(s[i])
  {
    if s == [] || IsFieldBreak(s[0]) then 0 else 1 + FirstBreak(s[1..])
  }

  /** mb_split(':|\s', $line, 2): the line cut once, at its first colon or
      whitespace character, which belongs to neither part. Without such a
      character the line is one part and the second part is null. */
  function SplitField(line: string): (r: (string, Option<string>))
    ensures forall j :: 0 <= j < |r.0| ==> !IsFieldBreak(r.0[j])
    ensures r.1.None? ==> r.0 == line
    ensures r.1.Some? ==> |r.0| < |line| && IsFieldBreak(line[|r.0|])
                          && line == r.0 + [line[|r.0|]] + r.1.value
  {
    var i := FirstBreak(line);
    if i == |line| then (line, None)
    else
      assert line == line[..i] + [line[i]] + line[i + 1..];
      (line[..i], Some(line[i + 1..]))
  }

  datatype Field = Field(name: string, value: string)

  /** The callback mapped over the head lines: both parts are trimmed and the
      FIRST part, the one paired with 1 from range(1, 2), is title-cased
      over '-'. A missing second part is null, which trim() turns into "". */
  function ParseLine(line: string): Field {
    var (name, value) := SplitField(line);
    Field(UcWords(Trim(name), '-'), Trim(value.GetOr("")))
  }

  predicate IsOws(s: string) {
    forall j :: 0 <= j < |s| ==> s[j] == ' ' || s[j] == '\t'
  }

  /** A field line `name sep OWS value OWS`, cut at its first break `sep`,
      yields the title-cased name and the value with its case untouched and
      its optional whitespace dropped. */
  lemma ParseFieldLine(name: string, sep: char, ows1: string, value: string, ows2: string)
    requires forall j :: 0 <= j < |name| ==> !IsFieldBreak(name[j])
    requires name == [] || (!IsTrimChar(name[0]) && !IsTrimChar(name[|name| - 1]))
    requires IsFieldBreak(sep) && IsOws(ows1) && IsOws(ows2)
    requires value == [] || (!IsTrimChar(value[0]) && !IsTrimChar(value[|value| - 1]))
    ensures ParseLine(name + [sep] + ows1 + value + ows2) == Field(UcWords(name, '-'), value)
  {
    var line := name + [sep] + ows1 + value + ows2;
    assert line == name + [sep] + (ows1 + value + ows2);
    var r := SplitField(line);
    assert line[|name|] == sep;
    assert |r.0| == |name|;
    assert r.0 == name;
    assert r.1.value == ows1 + value + ows2;
    TrimPadded(ows1, value, ows2);
    assert [] + name + [] == name;
    TrimPadded([], name, []);
  }

  // ---------------------------------------------------------------------------
  // The head

  /** Whether fields[i] is the last field carrying its name. */
  predicate LastOfName(fields: seq<Field>, i: int)
    requires 0 <= i < |fields|
  {
    forall j :: i < j < |fields| ==> fields[j].name != fields[i].name
  }

  /** array_combine(array_column($fields, 0), array_column($fields, 1)):
      the fields folded, first to last, into a map keyed by name. */
  function Combine(fields: seq<Field>): map<string, string> {
    if fields == [] then map[]
    else
      var last := fields[|fields| - 1];
      Combine(fields[..|fields| - 1])[last.name := last.value]
  }

  /** The keys of the combined map are exactly the names of the fields. */
  lemma {:induction false} CombineKeys(fields: seq<Field>, k: string)
    ensures k in Combine(fields) <==> exists i :: 0 <= i < |fields| && fields[i].name == k
  {
    if fields != [] {
      var init := fields[..|fields| - 1];
      CombineKeys(init, k);
      if exists i :: 0 <= i < |fields| && fields[i].name == k {
        var i :| 0 <= i < |fields| && fields[i].name == k;
        if i < |init| {
          assert init[i].name == k;
        }
      }
      if exists i :: 0 <= i < |init| && init[i].name == k {
        var i :| 0 <= i < |init| && init[i].name == k;
        assert fields[i].name == k;
      }
    }
  }

  /** A name maps to the value of the last field that carries it: a later
      duplicate overwrites an earlier one. */
  lemma {:induction false} CombineLastWins(fields: seq<Field>, i: int)
    requires 0 <= i < |fields| && LastOfName(fields, i)
    ensures fields[i].name in Combine(fields)
    ensures Combine(fields)[fields[i].name] == fields[i].value
  {
    var init := fields[..|fields| - 1];
    if i < |init| {
      assert LastOfName(init, i);
      CombineLastWins(init, i);
    }
  }

  lemma CombineOne(fields: seq<Field>)
    requires |fields| == 1
    ensures Combine(fields) == map[fields[0].name := fields[0].value]
  {
    assert fields[..0] == [];
  }

  lemma CombineTwo(fields: seq<Field>)
    requires |fields| == 2
    ensures Combine(fields) == map[fields[0].name := fields[0].value][fields[1].name := fields[1].value]
  {
    CombineOne(fields[..1]);
  }

  /** The fields of a head: one per CRLF-separated line. */
  function HeadFields(rawHeaders: string): seq<Field> {
    var lines := Explode(rawHeaders, CRLF);
    seq(|lines|, i requires 0 <= i < |lines| => ParseLine(lines[i]))
  }

  /** Curl::processResponseHeaders(): the head split at every CRLF, each line
      parsed, and the results combined. */
  function ProcessResponseHeaders(rawHeaders: string): map<string, string> {
    Combine(HeadFields(rawHeaders))
  }

  /** Every key of the parsed head is the name of one of its lines. */
  lemma HeadKeyFromLine(rawHeaders: string, k: string)
    requires k in ProcessResponseHeaders(rawHeaders)
    ensures exists i :: 0 <= i < |Explode(rawHeaders, CRLF)| && HeadFields(rawHeaders)[i] == ParseLine(Explode(rawHeaders, CRLF)[i]) && HeadFields(rawHeaders)[i].name == k
  {
    var fields := HeadFields(rawHeaders);
    CombineKeys(fields, k);
  }

  /** The name of every line of the head is a key of the parsed head. */
  lemma HeadKeyOfLine(rawHeaders: string, i: int)
    requires 0 <= i < |Explode(rawHeaders, CRLF)|
    ensures ParseLine(Explode(rawHeaders, CRLF)[i]).name in ProcessResponseHeaders(rawHeaders)
  {
    var fields := HeadFields(rawHeaders);
    CombineKeys(fields, fields[i].name);
  }

  /** The last line carrying a given name supplies that name's value. */
  lemma HeadEntries(rawHeaders: string, i: int)
    requires var lines := Explode(rawHeaders, CRLF);
             0 <= i < |lines| && forall j :: i < j < |lines| ==> ParseLine(lines[j]).name != ParseLine(lines[i]).name
    ensures var f := ParseLine(Explode(rawHeaders, CRLF)[i]);
            f.name in ProcessResponseHeaders(rawHeaders) && ProcessResponseHeaders(rawHeaders)[f.name] == f.value
  {
    CombineLastWins(HeadFields(rawHeaders), i);
  }

  lemma ColonLineSplits(name: string, value: string)
    ensures name + ": " + value == name + [':'] + " " + value + []
  {
  }

  /** The common `Name: value` line. */
  lemma ParseColonLine(name: string, value: string)
    requires forall j :: 0 <= j < |name| ==> !IsFieldBreak(name[j])
    requires name == [] || (!IsTrimChar(name[0]) && !IsTrimChar(name[|name| - 1]))
    requires value == [] || (!IsTrimChar(value[0]) && !IsTrimChar(value[|value| - 1]))
    ensures ParseLine(name + ": " + value) == Field(UcWords(name, '-'), value)
  {
    ColonLineSplits(name, value);
    ParseFieldLine(name, ':', " ", value, []);
  }

  lemma StatusLineSplits(reason: string)
    ensures "HTTP/1.1 " + reason == "HTTP/1.1" + [' '] + [] + reason + []
  {
  }

  /** The status line is cut at its first space: "HTTP/1.1 200 OK" gives the
      name "HTTP/1.1" and the value "200 OK". */
  lemma ParseStatusLine(reason: string)
    requires reason == [] || (!IsTrimChar(reason[0]) && !IsTrimChar(reason[|reason| - 1]))
    ensures ParseLine("HTTP/1.1 " + reason) == Field("HTTP/1.1", reason)
  {
    var name := "HTTP/1.1";
    assert UcWords(name, '-') == name by {
      UcWordsNoDelimiter(name, '-');
    }
    StatusLineSplits(reason);
    ParseFieldLine(name, ' ', [], reason, []);
  }

  /** A head of one line, such as the bare status line, is one entry. */
  lemma SingleLineHead(line: string)
    requires '\r' !in line
    ensures ProcessResponseHeaders(line) == map[ParseLine(line).name := ParseLine(line).value]
  {
    ExplodeWhole(line, CRLF);
    var fields := HeadFields(line);
    assert |fields| == 1 && fields[0] == ParseLine(line);
    CombineOne(fields);
  }

  lemma ExplodeTwoLines(first: string, second: string)
    requires '\r' !in first && '\r' !in second
    ensures Explode(first + CRLF + second, CRLF) == [first, second]
  {
    var head := first + CRLF + second;
    forall i | 0 <= i < |first| ensures !OccursAt(head, CRLF, i) {
      assert head[i] == first[i];
    }
    ExplodeAt(first, CRLF, second);
    ExplodeWhole(second, CRLF);
  }

  /** A head of two lines is the two entries, the second winning when both
      lines carry the same name. */
  lemma TwoLineHead(first: string, second: string)
    requires '\r' !in first && '\r' !in second
    ensures var f1, f2 := ParseLine(first), ParseLine(second);
            ProcessResponseHeaders(first + CRLF + second) == map[f1.name := f1.value][f2.name := f2.value]
  {
    ExplodeTwoLines(first, second);
    var fields := HeadFields(first + CRLF + second);
    assert |fields| == 2 && fields[0] == ParseLine(first) && fields[1] == ParseLine(second);
    CombineTwo(fields);
  }

  /** The status line alone, "HTTP/1.1 200 OK" say, is the single entry
      "HTTP/1.1" => "200 OK". */
  lemma StatusLineEntry(reason: string)
    requires '\r' !in reason
    requires reason == [] || (!IsTrimChar(reason[0]) && !IsTrimChar(reason[|reason| - 1]))
    ensures ProcessResponseHeaders("HTTP/1.1 " + reason) == map["HTTP/1.1" := reason]
  {
    var line := "HTTP/1.1 " + reason;
    assert '\r' !in line by {
      forall i | 0 <= i < |line| ensures line[i] != '\r' {
        if i >= 9 { assert line[i] == reason[i - 9]; }
      }
    }
    ParseStatusLine(reason);
    SingleLineHead(line);
  }

  // ---------------------------------------------------------------------------
  // Head and body

  /** The body is decoded as JSON exactly when the head has a non-empty
      Content-Type whose first 16 characters are "application/json". */
  function IsJsonContent(head: map<string, string>): (r: bool)
    ensures r <==> "Content-Type" in head && |head["Content-Type"]| >= |JsonType|
                   && head["Content-Type"][..|JsonType|] == JsonType
  {
    var contentType := if "Content-Type" in head then Some(head["Content-Type"]) else None;
    !Empty(contentType) && Prefix(contentType.value, 16) == JsonType
  }

  /** The transfer metadata read with curl_getinfo(), taken as given. */
  datatype Info = Info(url: string, time: real, responseCode: int, httpCode: int, httpMethod: string)

  /** What one curl_exec() produced: curl_errno(), curl_error(), the raw
      combined buffer and the metadata. */
  datatype Transfer = Transfer(errno: int, error: string, raw: string, info: Info)

  /** The response body: the raw text after the blank line (null when there
      was none), either kept as text or handed to json_decode(). */
  datatype Body = Text(source: Option<string>) | Json(source: Option<string>)

  datatype Envelope = Envelope(info: Info, head: map<string, string>, body: Body)

  /** The Error thrown for a failed transfer: curl_errno() as its code and
      curl_error() as its message. */
  datatype TransportError = TransportError(code: int, message: string)

  datatype Result<T, E> = Ok(value: T) | Err(error: E)

  /** Curl::send() from curl_errno() on: a non-zero error number is an error
      carrying that number and message and no envelope; otherwise the
      buffer is cut at its first blank line, the head is parsed, and the body
      is marked for JSON decoding exactly when the parsed head says JSON. */
  function Respond(t: Transfer): (r: Result<Envelope, TransportError>)
    ensures r.Err? <==> t.errno != 0
    ensures r.Err? ==> r.error == TransportError(t.errno, t.error)
    ensures r.Ok? ==> r.value.info == t.info
    ensures r.Ok? ==> var (head, body) := SplitOnce(t.raw, BlankLine);
                      r.value.head == ProcessResponseHeaders(head) && r.value.body.source == body
    ensures r.Ok? ==> (r.value.body.Json? <==> IsJsonContent(r.value.head))
  {
    if t.errno != 0 then Err(TransportError(t.errno, t.error))
    else
      var (head, body) := SplitOnce(t.raw, BlankLine);
      var headers := ProcessResponseHeaders(head);
      Ok(Envelope(t.info, headers, if IsJsonContent(headers) then Json(body) else Text(body)))
  }

  // ---------------------------------------------------------------------------
  // Examples

  lemma NoCarriageReturn(prefix: string, text: string)
    requires '\r' !in prefix && '\r' !in text
    ensures '\r' !in prefix + text
  {
    assert forall c :: c in prefix + text ==> c in prefix || c in text;
  }

  lemma ContentTypeToken()
    ensures forall j :: 0 <= j < |"content-type"| ==> !IsFieldBreak("content-type"[j])
    ensures !IsTrimChar("content-type"[0]) && !IsTrimChar("content-type"[|"content-type"| - 1])
    ensures UcWords("content-type", '-') == "Content-Type"
    ensures '\r' !in "content-type: "
    ensures forall v: string :: "content-type: " + v == "content-type" + ": " + v
  {
  }

  /** A lower-case `content-type` line is normalised to the key
      "Content-Type", with the value as sent. */
  lemma ContentTypeHead(v: string)
    requires '\r' !in v
    requires v == [] || (!IsTrimChar(v[0]) && !IsTrimChar(v[|v| - 1]))
    ensures ProcessResponseHeaders("content-type: " + v) == map["Content-Type" := v]
  {
    var line := "content-type: " + v;
    ContentTypeToken();
    NoCarriageReturn("content-type: ", v);
    assert ParseLine(line) == Field("Content-Type", v) by {
      ParseColonLine("content-type", v);
    }
    SingleLineHead(line);
  }

  /** A head with no carriage return ends at the first blank line after it. */
  lemma ContentTypeSplit(v: string, body: string)
    requires '\r' !in v
    ensures SplitOnce("content-type: " + v + BlankLine + body, BlankLine) == ("content-type: " + v, Some(body))
  {
    var head := "content-type: " + v;
    ContentTypeToken();
    NoCarriageReturn("content-type: ", v);
    forall i | 0 <= i < |head| ensures !OccursAt(head + BlankLine + body, BlankLine, i) {
      assert (head + BlankLine + body)[i] == head[i];
    }
    SplitOnceAt(head, BlankLine, body);
  }

  /** A successful transfer whose head is a single `content-type` line
      yields that one entry, and the text after the first blank line as the
      body, JSON or text as the content type says. */
  lemma ContentTypeResponse(v: string, body: string, info: Info)
    requires '\r' !in v
    requires v == [] || (!IsTrimChar(v[0]) && !IsTrimChar(v[|v| - 1]))
    ensures var raw := "content-type: " + v + BlankLine + body;
            var head := map["Content-Type" := v];
            Respond(Transfer(0, "", raw, info))
            == Ok(Envelope(info, head, if IsJsonContent(head) then Json(Some(body)) else Text(Some(body))))
  {
    ContentTypeSplit(v, body);
    ContentTypeHead(v);
  }

  /** A successful transfer whose head is `content-type: application/json`
      yields that entry and a body handed to json_decode(): the text after
      the first blank line, later blank lines included. */
  lemma JsonResponse(body: string, info: Info)
    ensures var raw := "content-type: " + JsonType + BlankLine + body;
            Respond(Transfer(0, "", raw, info))
            == Ok(Envelope(info, map["Content-Type" := JsonType], Json(Some(body))))
  {
    ContentTypeResponse(JsonType, body, info);
  }

  /** The same response as text/html keeps its body as text. */
  lemma HtmlResponse(body: string, info: Info)
    ensures var raw := "content-type: " + "text/html" + BlankLine + body;
            Respond(Transfer(0, "", raw, info))
            == Ok(Envelope(info, map["Content-Type" := "text/html"], Text(Some(body))))
  {
    ContentTypeResponse("text/html", body, info);
    assert !IsJsonContent(map["Content-Type" := "text/html"]);
  }
}
