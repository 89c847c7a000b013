/**
 * The pure parts of `rubygem_published?`: the RubyGems.org URL that is probed with
 * `curl -s -I`, and the reading of the HTTP status from the first line of the reply.
 * The request itself is not modelled: the reply is an input.
 */
module Registry {
  import opened Wrappers
  import opened RubyText

  const GemsBase := "https://rubygems.org/gems/"
  const VersionsSegment := "/versions/"

  /** The platform part of the probed version: `-java` for the java platform, nothing otherwise. */
  function PlatformSuffix(platform: string): (suffix: string)
    ensures suffix == "-java" <==> platform == "java"
    ensures suffix == "-java" || suffix == []
  {
    if platform == "java" then "-java" else ""
  }

  /** The URL `rubygem_published?` asks for. */
  function ProbeUrl(name: string, version: string, platform: string): (url: string)
    ensures |GemsBase| <= |url| && url[..|GemsBase|] == GemsBase
  {
    GemsBase + name + VersionsSegment + version + PlatformSuffix(platform)
  }

  /**
   * Reads a probe URL back into the gem name and the probed version (with any platform
   * suffix), or `None` when the text is not laid out as a probe URL.
   */
  function ParseProbeUrl(url: string): (parsed: Option<(string, string)>)
    ensures parsed.Some? ==> '/' !in parsed.value.0
  {
    if |url| < |GemsBase| || url[..|GemsBase|] != GemsBase then
      None
    else
      var rest := url[|GemsBase|..];
      var i := IndexOf(rest, '/');
      var tail := rest[i..];
      if |tail| < |VersionsSegment| || tail[..|VersionsSegment|] != VersionsSegment then
        None
      else
        Some((rest[..i], tail[|VersionsSegment|..]))
  }

  /**
   * The URL holds the gem name and the version followed by `-java` exactly for the java
   * platform: reading it back gives both, for any name free of `/`.
   */
  lemma ProbeUrlRoundTrip(name: string, version: string, platform: string)
    requires '/' !in name
    ensures ParseProbeUrl(ProbeUrl(name, version, platform)) == Some((name, version + PlatformSuffix(platform)))
  {
    var tailAfter := version + PlatformSuffix(platform);
    var more := VersionsSegment + tailAfter;
    var url := GemsBase + (name + more);
    ProbeUrlShape(name, version, platform);
    assert url[..|GemsBase|] == GemsBase && url[|GemsBase|..] == name + more;
    NameThenSlash(name, more);
    assert more[..|VersionsSegment|] == VersionsSegment && more[|VersionsSegment|..] == tailAfter;
  }

  /** The probe URL regrouped around the gem name. */
  lemma ProbeUrlShape(name: string, version: string, platform: string)
    ensures ProbeUrl(name, version, platform)
      == GemsBase + (name + (VersionsSegment + (version + PlatformSuffix(platform))))
  {
  }

  /** A name free of `/` followed by text that starts with `/` ends at that first `/`. */
  lemma NameThenSlash(name: string, more: string)
    requires '/' !in name && more != [] && more[0] == '/'
    ensures IndexOf(name + more, '/') == |name|
    ensures (name + more)[..|name|] == name && (name + more)[|name|..] == more
  {
    var rest := name + more;
    assert rest[|name|] == '/';
    assert forall j :: 0 <= j < |name| ==> rest[j] == name[j];
  }

  /**
   * `_, status, _ = line.split(" ")` binds the second token, or nil when the line holds
   * fewer than two; the gem is published when that is exactly `200`.
   */
  function SecondTokenIs200(line: string): (is200: bool)
    ensures is200 ==> |SplitWords(line)| >= 2 && SplitWords(line)[1] == "200"
    ensures !is200 ==> |SplitWords(line)| < 2 || SplitWords(line)[1] != "200"
  {
    var tokens := SplitWords(line);
    |tokens| >= 2 && tokens[1] == "200"
  }

  /**
   * The status read from a `curl -s -I` reply: `Some(published)` where `published` says
   * whether the second token of the first line is `200`, or `None` when the reply has no
   * first line at all, where the script's `nil.split` raises and the script dies.
   */
  function ProbeStatus(response: string): (status: Option<bool>)
    ensures status.None? <==> forall i :: 0 <= i < |response| ==> response[i] == '\n'
    ensures status.Some? ==> (status.value <==> SecondTokenIs200(response[..IndexOf(response, '\n')]))
  {
    SplitLinesEmpty(response);
    var lines := SplitLines(response);
    if lines == [] then
      None
    else
      FirstLine(response);
      Some(SecondTokenIs200(lines[0]))
  }

  /** A first line that starts with a newline-free `head` is `head` and the rest of the line after it. */
  lemma FirstLineAfterHead(head: string, rest: string)
    requires '\n' !in head
    ensures IndexOf(head + rest, '\n') == |head| + IndexOf(rest, '\n')
    ensures (head + rest)[..|head| + IndexOf(rest, '\n')] == head + rest[..IndexOf(rest, '\n')]
  {
    var s := head + rest;
    var k := IndexOf(rest, '\n');
    assert forall j :: 0 <= j < |head| ==> s[j] == head[j];
    assert forall j :: 0 <= j < k ==> s[|head| + j] == rest[j];
    assert k < |rest| ==> s[|head| + k] == '\n';
  }

  /** The status is read from the first line alone. */
  lemma StatusOfFirstLine(response: string, line: string)
    requires |response| > 0 && response[0] != '\n'
    requires line == response[..IndexOf(response, '\n')]
    ensures ProbeStatus(response) == Some(SecondTokenIs200(line))
  {
    assert !(forall i :: 0 <= i < |response| ==> response[i] == '\n');
  }

  /** In a line `<protocol> <code>` followed by whitespace or nothing, the code is the second token. */
  lemma CodeIsSecondToken(protocol: string, code: string, rest: string)
    requires IsWord(protocol) && IsWord(code)
    requires rest == [] || IsSpace(rest[0])
    ensures var tokens := SplitWords(protocol + " " + code + rest); |tokens| >= 2 && tokens[1] == code
  {
    var afterProtocol := [' '] + (code + rest);
    StatusLineShape(protocol, code, rest);
    assert afterProtocol[1..] == code + rest;
    SplitWordsWordFirst(protocol, afterProtocol);
    SplitWordsSpaceFirst(afterProtocol);
    SplitWordsWordFirst(code, rest);
  }

  /** The status line regrouped as the protocol, then a space and what follows it. */
  lemma StatusLineShape(protocol: string, code: string, rest: string)
    ensures protocol + " " + code + rest == protocol + ([' '] + (code + rest))
  {
  }

  /** Whatever the line, the verdict only depends on its second token. */
  lemma SecondTokenDecides(line: string, code: string)
    requires |SplitWords(line)| >= 2 && SplitWords(line)[1] == code
    ensures SecondTokenIs200(line) <==> code == "200"
  {
  }

  /**
   * For a reply whose status line is `<protocol> <code>` followed by whitespace, the end of
   * the line or anything after whitespace, the gem counts as published exactly when the
   * code is `200`.
   */
  lemma StatusLineDecides(protocol: string, code: string, rest: string)
    requires IsWord(protocol) && IsWord(code)
    requires rest == [] || IsSpace(rest[0])
    ensures ProbeStatus(protocol + " " + code + rest) == Some(code == "200")
  {
    var lineRest := rest[..IndexOf(rest, '\n')];
    assert lineRest == [] || IsSpace(lineRest[0]);
    StatusFromHead(protocol, code, rest);
    CodeIsSecondToken(protocol, code, lineRest);
    SecondTokenDecides(protocol + " " + code + lineRest, code);
  }

  /** The status of such a reply is read from `<protocol> <code>` and the rest of its first line. */
  lemma StatusFromHead(protocol: string, code: string, rest: string)
    requires IsWord(protocol) && IsWord(code)
    ensures ProbeStatus(protocol + " " + code + rest)
      == Some(SecondTokenIs200(protocol + " " + code + rest[..IndexOf(rest, '\n')]))
  {
    var head := protocol + " " + code;
    StatusHead(protocol, code, rest);
    FirstLineAfterHead(head, rest);
    StatusOfFirstLine(head + rest, head + rest[..IndexOf(rest, '\n')]);
  }

  /** The part `<protocol> <code>` of a status line holds no newline and starts the reply. */
  lemma StatusHead(protocol: string, code: string, rest: string)
    requires IsWord(protocol) && IsWord(code)
    ensures '\n' !in protocol + " " + code
    ensures (protocol + " " + code + rest)[0] == protocol[0]
  {
    WordHasNoSpace(protocol);
    WordHasNoSpace(code);
  }

  /** A word holds no whitespace, and in particular no newline. */
  lemma WordHasNoSpace(w: string)
    requires IsWord(w)
    ensures forall i :: 0 <= i < |w| ==> !IsSpace(w[i])
    ensures '\n' !in w
  {
  }

  /** An empty reply has no first line: the probe does not report "not published" but fails. */
  lemma EmptyReplyFails()
    ensures ProbeStatus("") == None
  {
  }

  /** A first line holding a single token gives "not published": there is no second token. */
  lemma SingleTokenNotPublished(response: string)
    requires exists i :: 0 <= i < |response| && response[i] != '\n'
    requires |SplitWords(response[..IndexOf(response, '\n')])| < 2
    ensures ProbeStatus(response) == Some(false)
  {
  }

  /** curl ends header lines with `\r\n`: a status line that is the protocol alone still reads as "not published". */
  lemma CrlfProtocolOnlyNotPublished()
    ensures ProbeStatus("HTTP/2\r\n") == Some(false)
  {
    var response := "HTTP/2\r\n";
    assert response[0] != '\n';
    assert response[..IndexOf(response, '\n')] == "HTTP/2\r";
    NoSpaceIsWord("HTTP/2");
    assert "HTTP/2" + "\r" == "HTTP/2\r";
    SplitWordsSingle("HTTP/2", "\r");
    SingleTokenNotPublished(response);
  }

  /** An HTTP/2 reply with status 200 means the version is published, whatever headers follow. */
  lemma Reply200Published(headers: string)
    ensures ProbeStatus("HTTP/2 200 \r\n" + headers) == Some(true)
  {
    var rest := " \r\n" + headers;
    assert "HTTP/2" + " " + "200" + rest == "HTTP/2 200 \r\n" + headers;
    NoSpaceIsWord("HTTP/2");
    NoSpaceIsWord("200");
    StatusLineDecides("HTTP/2", "200", rest);
  }

  /** A 404 reply means not published. */
  lemma Reply404NotPublished(headers: string)
    ensures ProbeStatus("HTTP/2 404 \r\n" + headers) == Some(false)
  {
    var rest := " \r\n" + headers;
    assert "HTTP/2" + " " + "404" + rest == "HTTP/2 404 \r\n" + headers;
    NoSpaceIsWord("HTTP/2");
    NoSpaceIsWord("404");
    StatusLineDecides("HTTP/2", "404", rest);
  }

  /** The code is compared as a whole token: `2000` is not `200`. */
  lemma Reply2000NotPublished(headers: string)
    ensures ProbeStatus("HTTP/1.1 2000 OK\r\n" + headers) == Some(false)
  {
    var rest := " OK\r\n" + headers;
    assert "HTTP/1.1" + " " + "2000" + rest == "HTTP/1.1 2000 OK\r\n" + headers;
    NoSpaceIsWord("HTTP/1.1");
    NoSpaceIsWord("2000");
    StatusLineDecides("HTTP/1.1", "2000", rest);
  }
}
