/**
 * The hand-built HTTP/1.1 framing shared by the fetch worker, the updater and
 * the feed reader: CRLF-terminated lines (section 3 of RFC 7230), the GET
 * request they write, and the text they make of the `readLine` results.
 */
module Http {
  import opened Wrappers
  import opened Seqs
  import opened Urls

  const CRLF := "\r\n"

  predicate NoCr(s: string)
  {
    '\r' !in s
  }

  /** Each line followed by CRLF. */
  function Terminated(lines: seq<string>): string
  {
    if lines == [] then [] else lines[0] + CRLF + Terminated(lines[1..])
  }

  /** Index of the first carriage return in `s`, or `|s|` when there is none. */
  function CrIndex(s: string): (i: nat)
    ensures i <= |s|
    ensures i < |s| ==> s[i] == '\r'
  {
    if s == [] || s[0] == '\r' then 0 else 1 + CrIndex(s[1..])
  }

  /**
   * Reads a text back as CRLF-terminated lines; `None` when some text is
   * left without a terminator or a CR is not followed by LF.
   */
  function ParseLines(s: string): Option<seq<string>>
    decreases |s|
  {
    if s == [] then Some([])
    else
      var i := CrIndex(s);
      if i + 1 < |s| && s[i + 1] == '\n' then
        match ParseLines(s[i + 2..])
        case None => None
        case Some(rest) => Some([s[..i]] + rest)
      else None
  }

  lemma {:induction false} CrIndexAfter(line: string, tail: string)
    requires NoCr(line)
    ensures CrIndex(line + CRLF + tail) == |line|
    decreases |line|
  {
    var s := line + CRLF + tail;
    if line != [] {
      assert s[1..] == line[1..] + CRLF + tail;
      CrIndexAfter(line[1..], tail);
    }
  }

  /** Framing lines that hold no CR and reading them back gives the same lines. */
  lemma {:induction false} ParseTerminated(lines: seq<string>)
    requires forall l :: l in lines ==> NoCr(l)
    ensures ParseLines(Terminated(lines)) == Some(lines)
    decreases |lines|
  {
    if lines != [] {
      var tail := Terminated(lines[1..]);
      var s := Terminated(lines);
      assert s == lines[0] + CRLF + tail;
      CrIndexAfter(lines[0], tail);
      assert s[..|lines[0]|] == lines[0];
      assert s[|lines[0]| + 2..] == tail;
      ParseTerminated(lines[1..]);
      assert [lines[0]] + lines[1..] == lines;
    }
  }

  /** Whatever text reads back as lines is exactly those lines, framed. */
  lemma {:induction false} TerminatedOfParse(s: string)
    requires ParseLines(s).Some?
    ensures Terminated(ParseLines(s).value) == s
    decreases |s|
  {
    if s != [] {
      var i := CrIndex(s);
      var tail := s[i + 2..];
      var rest := ParseLines(tail).value;
      var lines := ParseLines(s).value;
      assert lines == [s[..i]] + rest;
      TerminatedOfParse(tail);
      TerminatedCons(s[..i], rest);
      SplitAtCrLf(s, i);
    }
  }

  /** A text with CRLF at `i` is the part before it, CRLF, and the part after it. */
  lemma SplitAtCrLf(s: string, i: nat)
    requires i + 1 < |s| && s[i] == '\r' && s[i + 1] == '\n'
    ensures s == s[..i] + CRLF + s[i + 2..]
  {
    assert s[i..i + 2] == CRLF;
    assert s == s[..i] + s[i..i + 2] + s[i + 2..];
  }

  lemma TerminatedCons(line: string, rest: seq<string>)
    ensures Terminated([line] + rest) == line + CRLF + Terminated(rest)
  {
    assert ([line] + rest)[1..] == rest;
  }

  /** The request target: the path, then `?` and the query when there is one. */
  function RequestTarget(path: Option<string>, query: Option<string>): string
  {
    AsText(path) + (match query case Some(q) => "?" + q case None => "")
  }

  /** Splits a request target at its first `?` into path and optional query. */
  function SplitTarget(target: string): (string, Option<string>)
  {
    if target == [] then ("", None)
    else if target[0] == '?' then ("", Some(target[1..]))
    else
      var (p, q) := SplitTarget(target[1..]);
      ([target[0]] + p, q)
  }

  /**
   * The target keeps path and query apart: when the path text has no `?`,
   * splitting the target gives back the path and exactly the query.
   */
  lemma {:induction false} RequestTargetSplits(path: Option<string>, query: Option<string>)
    requires '?' !in AsText(path)
    ensures SplitTarget(RequestTarget(path, query)) == (AsText(path), query)
  {
    SplitAfterPath(AsText(path), query);
  }

  lemma {:induction false} SplitAfterPath(p: string, query: Option<string>)
    requires '?' !in p
    ensures SplitTarget(p + (match query case Some(q) => "?" + q case None => "")) == (p, query)
    decreases |p|
  {
    var suffix := match query case Some(q) => "?" + q case None => "";
    if p != [] {
      assert (p + suffix)[1..] == p[1..] + suffix;
      SplitAfterPath(p[1..], query);
      assert [p[0]] + p[1..] == p;
    } else {
      assert p + suffix == suffix;
      if query.Some? {
        assert suffix[1..] == query.value;
      }
    }
  }

  /** The lines of a GET request; the User-Agent line only when one is sent. */
  function RequestLines(target: string, host: string, agent: Option<string>): seq<string>
  {
    ["GET " + target + " HTTP/1.1", "Host: " + host]
    + (match agent case Some(a) => ["User-Agent: " + a] case None => [])
    + ["Connection: close", ""]
  }

  /** Leaving the User-Agent out removes exactly the third line. */
  lemma RequestLinesWithoutAgent(target: string, host: string, agent: string)
    ensures var full := RequestLines(target, host, Some(agent));
      && |full| == 5
      && full[2] == "User-Agent: " + agent
      && RequestLines(target, host, None) == full[..2] + full[3..]
  {
  }

  /**
   * The text of one GET request, in the order the worker writes it (what
   * reaches the wire is its `WriteBytes`). Read back, it is exactly the
   * request line, `Host`, the optional `User-Agent`, `Connection: close` and
   * the empty line ending the header section; it ends in CRLF CRLF.
   */
  function GetRequest(target: string, host: string, agent: Option<string>): (r: string)
    ensures NoCr(target) && NoCr(host) && (agent.Some? ==> NoCr(agent.value)) ==>
              ParseLines(r) == Some(RequestLines(target, host, agent))
    ensures |r| >= 4 && r[|r| - 4..] == "\r\n\r\n"
  {
    var request :=
      "GET " + target + " HTTP/1.1\r\n"
      + "Host: " + host + "\r\n"
      + (match agent case Some(a) => "User-Agent: " + a + "\r\n" case None => "")
      + "Connection: close\r\n\r\n";
    RequestFraming(target, host, agent, request);
    request
  }

  lemma RequestFraming(target: string, host: string, agent: Option<string>, request: string)
    requires request ==
      "GET " + target + " HTTP/1.1\r\n"
      + "Host: " + host + "\r\n"
      + (match agent case Some(a) => "User-Agent: " + a + "\r\n" case None => "")
      + "Connection: close\r\n\r\n"
    ensures request == Terminated(RequestLines(target, host, agent))
    ensures NoCr(target) && NoCr(host) && (agent.Some? ==> NoCr(agent.value)) ==>
              ParseLines(request) == Some(RequestLines(target, host, agent))
  {
    var lines := RequestLines(target, host, agent);
    match agent {
      case Some(a) => FramingWithAgent(target, host, a);
      case None => FramingWithoutAgent(target, host);
    }
    if NoCr(target) && NoCr(host) && (agent.Some? ==> NoCr(agent.value)) {
      RequestLinesHaveNoCr(target, host, agent);
      ParseTerminated(lines);
    }
  }

  lemma FramingWithAgent(target: string, host: string, a: string)
    ensures "GET " + target + " HTTP/1.1\r\n" + "Host: " + host + "\r\n" + ("User-Agent: " + a + "\r\n")
            + "Connection: close\r\n\r\n"
            == Terminated(RequestLines(target, host, Some(a)))
  {
    assert RequestLines(target, host, Some(a))
        == ["GET " + target + " HTTP/1.1", "Host: " + host, "User-Agent: " + a, "Connection: close", ""];
    TerminatedFive("GET " + target + " HTTP/1.1", "Host: " + host, "User-Agent: " + a, "Connection: close", "");
  }

  lemma FramingWithoutAgent(target: string, host: string)
    ensures "GET " + target + " HTTP/1.1\r\n" + "Host: " + host + "\r\n" + ""
            + "Connection: close\r\n\r\n"
            == Terminated(RequestLines(target, host, None))
  {
    assert RequestLines(target, host, None)
        == ["GET " + target + " HTTP/1.1", "Host: " + host, "Connection: close", ""];
    TerminatedFour("GET " + target + " HTTP/1.1", "Host: " + host, "Connection: close", "");
  }

  lemma RequestLinesHaveNoCr(target: string, host: string, agent: Option<string>)
    requires NoCr(target) && NoCr(host) && (agent.Some? ==> NoCr(agent.value))
    ensures forall l :: l in RequestLines(target, host, agent) ==> NoCr(l)
  {
  }

  lemma TerminatedFour(l0: string, l1: string, l2: string, l3: string)
    ensures Terminated([l0, l1, l2, l3]) == l0 + CRLF + l1 + CRLF + l2 + CRLF + l3 + CRLF
  {
    TerminatedCons(l3, []);
    TerminatedCons(l2, [l3]);
    TerminatedCons(l1, [l2, l3]);
    TerminatedCons(l0, [l1, l2, l3]);
  }

  lemma TerminatedFive(l0: string, l1: string, l2: string, l3: string, l4: string)
    ensures Terminated([l0, l1, l2, l3, l4]) == l0 + CRLF + l1 + CRLF + l2 + CRLF + l3 + CRLF + l4 + CRLF
  {
    TerminatedFour(l1, l2, l3, l4);
    TerminatedCons(l0, [l1, l2, l3, l4]);
  }

  /**
   * The UTF-16 code units of a char, as a Java string holds it: one unit
   * up to U+FFFF, and a surrogate pair above.
   */
  function CodeUnits(c: char): seq<int>
  {
    var n := c as int;
    if n < 0x1_0000 then [n]
    else [0xD800 + (n - 0x1_0000) / 0x400, 0xDC00 + (n - 0x1_0000) % 0x400]
  }

  /** The units decode back to the char, and each half of a pair lies in its own surrogate range. */
  lemma CodeUnitsDecode(c: char)
    ensures var units := CodeUnits(c);
      && 1 <= |units| <= 2
      && (|units| == 1 <==> (c as int) < 0x1_0000)
      && (|units| == 1 ==> units[0] == c as int)
      && (|units| == 2 ==>
            && 0xD800 <= units[0] < 0xDC00 && 0xDC00 <= units[1] < 0xE000
            && 0x1_0000 + (units[0] - 0xD800) * 0x400 + (units[1] - 0xDC00) == c as int)
  {
  }

  /** The low eight bits of a code unit, the only part `writeBytes` sends. */
  function LowByte(unit: int): char
  {
    (unit % 256) as char
  }

  /** The bytes `writeBytes` sends for one char: one per code unit. */
  function CharBytes(c: char): string
  {
    var units := CodeUnits(c);
    if |units| == 1 then [LowByte(units[0])] else [LowByte(units[0]), LowByte(units[1])]
  }

  /** The bytes of each char of `s`, in order. */
  function PerChar(s: string): (parts: seq<string>)
    ensures |parts| == |s|
  {
    seq(|s|, i requires 0 <= i < |s| => CharBytes(s[i]))
  }

  /**
   * `DataOutputStream.writeBytes`: every UTF-16 code unit of `s` goes out
   * as its low eight bits; the high bits are discarded.
   */
  function WriteBytes(s: string): string
  {
    Concat(PerChar(s))
  }

  lemma WriteBytesAppend(a: string, b: string)
    ensures WriteBytes(a + b) == WriteBytes(a) + WriteBytes(b)
  {
    assert PerChar(a + b) == PerChar(a) + PerChar(b);
    ConcatAppend(PerChar(a), PerChar(b));
  }

  /** One char goes out as its own bytes. */
  lemma WriteBytesSingle(c: char)
    ensures WriteBytes([c]) == CharBytes(c)
  {
    var parts := [CharBytes(c)];
    assert PerChar([c]) == parts;
    assert parts[..0] == [];
    assert Concat(parts) == Concat(parts[..0]) + parts[0];
  }

  /** ASCII text goes on the wire unchanged. */
  lemma {:induction false} AsciiUnchanged(s: string)
    requires forall i :: 0 <= i < |s| ==> (s[i] as int) < 128
    ensures WriteBytes(s) == s
    decreases |s|
  {
    if s != [] {
      var init, last := s[..|s| - 1], s[|s| - 1];
      assert PerChar(s)[..|s| - 1] == PerChar(init);
      assert CharBytes(last) == [last];
      AsciiUnchanged(init);
      assert init + [last] == s;
    }
  }

  /** Text that `writeBytes` sends unchanged and that holds no CR. */
  predicate Plain(s: string)
  {
    NoCr(s) && WriteBytes(s) == s
  }

  /** Printable ASCII is plain. */
  lemma PrintableIsPlain(s: string)
    requires forall i :: 0 <= i < |s| ==> ' ' <= s[i] <= '~'
    ensures Plain(s)
  {
    AsciiUnchanged(s);
  }

  lemma PlainAppend(a: string, b: string)
    requires Plain(a) && Plain(b)
    ensures Plain(a + b)
  {
    WriteBytesAppend(a, b);
  }

  /** Each line as it goes on the wire. */
  function WireLines(lines: seq<string>): seq<string>
  {
    seq(|lines|, i requires 0 <= i < |lines| => WriteBytes(lines[i]))
  }

  function WireAgent(agent: Option<string>): Option<string>
  {
    match agent
    case Some(a) => Some(WriteBytes(a))
    case None => None
  }

  /** Truncation commutes with framing: CR and LF are single bytes already. */
  lemma {:induction false} WriteBytesTerminated(lines: seq<string>)
    ensures WriteBytes(Terminated(lines)) == Terminated(WireLines(lines))
    decreases |lines|
  {
    if lines != [] {
      var tail := Terminated(lines[1..]);
      WriteBytesAppend(lines[0] + CRLF, tail);
      WriteBytesAppend(lines[0], CRLF);
      AsciiUnchanged(CRLF);
      WriteBytesTerminated(lines[1..]);
      assert WireLines(lines)[1..] == WireLines(lines[1..]);
      TerminatedCons(WireLines(lines)[0], WireLines(lines)[1..]);
      assert [WireLines(lines)[0]] + WireLines(lines)[1..] == WireLines(lines);
    }
  }

  /** The request's fixed words are plain ASCII and reach the wire unchanged. */
  lemma RequestLinesOnWire(target: string, host: string, agent: Option<string>)
    ensures WireLines(RequestLines(target, host, agent))
         == RequestLines(WriteBytes(target), WriteBytes(host), WireAgent(agent))
  {
    match agent {
      case Some(a) => AgentLinesOnWire(target, host, a);
      case None => NoAgentLinesOnWire(target, host);
    }
  }

  lemma AgentLinesOnWire(target: string, host: string, agent: string)
    ensures WireLines(RequestLines(target, host, Some(agent)))
         == RequestLines(WriteBytes(target), WriteBytes(host), Some(WriteBytes(agent)))
  {
    var l0, l1, l2 := "GET " + target + " HTTP/1.1", "Host: " + host, "User-Agent: " + agent;
    FixedLinesOnWire(target, host);
    WireHeader("User-Agent: ", agent);
    RequestLinesShape(target, host, agent);
    RequestLinesShape(WriteBytes(target), WriteBytes(host), WriteBytes(agent));
    WireLinesFive(l0, l1, l2, "Connection: close", "");
  }

  lemma NoAgentLinesOnWire(target: string, host: string)
    ensures WireLines(RequestLines(target, host, None))
         == RequestLines(WriteBytes(target), WriteBytes(host), None)
  {
    var l0, l1 := "GET " + target + " HTTP/1.1", "Host: " + host;
    FixedLinesOnWire(target, host);
    RequestLinesShape(target, host, "");
    RequestLinesShape(WriteBytes(target), WriteBytes(host), "");
    WireLinesFour(l0, l1, "Connection: close", "");
  }

  lemma WireLinesFive(l0: string, l1: string, l2: string, l3: string, l4: string)
    ensures WireLines([l0, l1, l2, l3, l4]) == [WriteBytes(l0), WriteBytes(l1), WriteBytes(l2), WriteBytes(l3), WriteBytes(l4)]
  {
  }

  lemma WireLinesFour(l0: string, l1: string, l2: string, l3: string)
    ensures WireLines([l0, l1, l2, l3]) == [WriteBytes(l0), WriteBytes(l1), WriteBytes(l2), WriteBytes(l3)]
  {
  }

  /** The lines every request has, as they go on the wire. */
  lemma FixedLinesOnWire(target: string, host: string)
    ensures WriteBytes("GET " + target + " HTTP/1.1") == "GET " + WriteBytes(target) + " HTTP/1.1"
    ensures WriteBytes("Host: " + host) == "Host: " + WriteBytes(host)
    ensures WriteBytes("Connection: close") == "Connection: close"
    ensures WriteBytes("") == ""
  {
    WireRequestLine(target);
    WireHeader("Host: ", host);
    AsciiUnchanged("Connection: close");
    AsciiUnchanged("");
  }

  /** On the wire the request line changes only in its target. */
  lemma WireRequestLine(target: string)
    ensures WriteBytes("GET " + target + " HTTP/1.1") == "GET " + WriteBytes(target) + " HTTP/1.1"
  {
    WriteBytesAppend("GET " + target, " HTTP/1.1");
    WriteBytesAppend("GET ", target);
    AsciiUnchanged("GET ");
    AsciiUnchanged(" HTTP/1.1");
  }

  /** On the wire a header line with an ASCII name changes only in its value. */
  lemma WireHeader(name: string, value: string)
    requires forall i :: 0 <= i < |name| ==> (name[i] as int) < 128
    ensures WriteBytes(name + value) == name + WriteBytes(value)
  {
    WriteBytesAppend(name, value);
    AsciiUnchanged(name);
  }

  /**
   * What goes on the wire is the request built from the truncated target,
   * host and agent.
   */
  lemma WireRequest(target: string, host: string, agent: Option<string>)
    ensures WriteBytes(GetRequest(target, host, agent))
         == GetRequest(WriteBytes(target), WriteBytes(host), WireAgent(agent))
  {
    var request := GetRequest(target, host, agent);
    RequestFraming(target, host, agent, request);
    WriteBytesTerminated(RequestLines(target, host, agent));
    RequestLinesOnWire(target, host, agent);
    var wire := GetRequest(WriteBytes(target), WriteBytes(host), WireAgent(agent));
    RequestFraming(WriteBytes(target), WriteBytes(host), WireAgent(agent), wire);
  }

  /**
   * Read back as CRLF lines, the bytes on the wire are the request lines of
   * the truncated parts, provided truncation leaves no CR in them.
   */
  lemma WireRequestLines(target: string, host: string, agent: Option<string>)
    requires NoCr(WriteBytes(target)) && NoCr(WriteBytes(host))
    requires agent.Some? ==> NoCr(WriteBytes(agent.value))
    ensures ParseLines(WriteBytes(GetRequest(target, host, agent)))
         == Some(RequestLines(WriteBytes(target), WriteBytes(host), WireAgent(agent)))
  {
    WireRequest(target, host, agent);
  }

  /** With an agent that `writeBytes` leaves alone, the bytes sent read back as the five request lines. */
  lemma WirePlainAgentLines(target: string, host: string, agent: string)
    requires NoCr(WriteBytes(target)) && NoCr(WriteBytes(host)) && Plain(agent)
    ensures ParseLines(WriteBytes(GetRequest(target, host, Some(agent))))
         == Some(["GET " + WriteBytes(target) + " HTTP/1.1", "Host: " + WriteBytes(host), "User-Agent: " + agent,
                  "Connection: close", ""])
  {
    WireRequestLines(target, host, Some(agent));
    assert WireAgent(Some(agent)) == Some(agent);
    RequestLinesShape(WriteBytes(target), WriteBytes(host), agent);
  }

  /** Without an agent, the bytes sent read back as the four request lines. */
  lemma WireNoAgentLines(target: string, host: string)
    requires NoCr(WriteBytes(target)) && NoCr(WriteBytes(host))
    ensures ParseLines(WriteBytes(GetRequest(target, host, None)))
         == Some(["GET " + WriteBytes(target) + " HTTP/1.1", "Host: " + WriteBytes(host), "Connection: close", ""])
  {
    WireRequestLines(target, host, None);
    RequestLinesShape(WriteBytes(target), WriteBytes(host), "");
  }

  /** The request lines with and without an agent, written out. */
  lemma RequestLinesShape(target: string, host: string, agent: string)
    ensures RequestLines(target, host, Some(agent))
         == ["GET " + target + " HTTP/1.1", "Host: " + host, "User-Agent: " + agent, "Connection: close", ""]
    ensures RequestLines(target, host, None) == ["GET " + target + " HTTP/1.1", "Host: " + host, "Connection: close", ""]
  {
  }

  /** Every request starts with `GET `, the target and a space. */
  lemma RequestLineStart(target: string, host: string, agent: Option<string>)
    ensures |GetRequest(target, host, agent)| >= |target| + 5
    ensures GetRequest(target, host, agent)[..|target| + 5] == "GET " + target + " "
  {
    var request := GetRequest(target, host, agent);
    var lines := RequestLines(target, host, agent);
    RequestFraming(target, host, agent, request);
    var first := "GET " + target + " HTTP/1.1";
    assert [first] + lines[1..] == lines;
    TerminatedCons(first, lines[1..]);
    var n := |target| + 5;
    assert request[..n] == first[..n] by {
      PrefixOfAppend(first + CRLF, Terminated(lines[1..]));
      PrefixOfAppend(first, CRLF);
      assert request[..|first|] == first;
    }
    assert first[..n] == "GET " + target + " " by {
      PrefixOfAppend("GET " + target, " HTTP/1.1");
      assert first[n - 1] == ' ';
      assert first[..n] == first[..n - 1] + [first[n - 1]];
    }
  }

  /** A concatenation starts with its first part. */
  lemma PrefixOfAppend(a: string, b: string)
    ensures |a + b| >= |a| && (a + b)[..|a|] == a
  {
  }

  /** `CrIndex` finds a CR that no earlier CR precedes. */
  lemma {:induction false} CrIndexAt(s: string, i: nat)
    requires i < |s| && s[i] == '\r' && NoCr(s[..i])
    ensures CrIndex(s) == i
  {
    if i > 0 {
      assert s[0] in s[..i];
      assert s[1..][..i - 1] == s[1..i];
      CrIndexAt(s[1..], i - 1);
    }
  }

  /** A text whose first CR is not followed by LF does not read back as lines. */
  lemma CrWithoutLfBreaks(s: string)
    requires |s| >= 7 && s[..6] == "GET /\r" && s[6] != '\n'
    ensures ParseLines(s).None?
  {
    assert s[..5] == "GET /" && s[5] == '\r';
    CrIndexAt(s, 5);
  }

  /**
   * A char whose low byte is CR breaks the framing: the decoded path `/č`
   * (U+010D) holds no CR, yet on the wire the request line is cut short and
   * the bytes no longer read back as lines.
   */
  lemma WideCharBreaksFraming(host: string, agent: Option<string>)
    ensures NoCr("/\U{010D}")
    ensures ParseLines(WriteBytes(GetRequest("/\U{010D}", host, agent))).None?
  {
    WideCharOnWire();
    var h, a := WriteBytes(host), WireAgent(agent);
    WireRequest("/\U{010D}", host, agent);
    var request := GetRequest("/\r", h, a);
    RequestLineStart("/\r", h, a);
    assert request[..6] == request[..7][..6] && request[6] == request[..7][6];
    CrWithoutLfBreaks(request);
  }

  /** U+010D has low byte 0x0D, the CR. */
  lemma WideCharOnWire()
    ensures NoCr("/\U{010D}")
    ensures WriteBytes("/\U{010D}") == "/\r"
  {
    assert "/\U{010D}" == ['/'] + ['\U{010D}'];
    WriteBytesAppend(['/'], ['\U{010D}']);
    WriteBytesSingle('/');
    WriteBytesSingle('\U{010D}');
  }

  /**
   * A char above U+FFFF goes out as a surrogate pair, and its high half can
   * carry the CR: the decoded path `/` U+13400 holds no CR, yet its high
   * surrogate D80D puts 0x0D on the wire and the request no longer reads
   * back as lines.
   */
  lemma SurrogateBreaksFraming(host: string, agent: Option<string>)
    ensures NoCr("/\U{13400}")
    ensures ParseLines(WriteBytes(GetRequest("/\U{13400}", host, agent))).None?
  {
    SurrogateOnWire();
    var h, a := WriteBytes(host), WireAgent(agent);
    WireRequest("/\U{13400}", host, agent);
    var request := GetRequest("/\r\0", h, a);
    RequestLineStart("/\r\0", h, a);
    assert request[..6] == request[..8][..6] && request[6] == request[..8][6];
    CrWithoutLfBreaks(request);
  }

  /** U+13400 is the surrogate pair D80D DC00, whose low bytes are CR and NUL. */
  lemma SurrogateOnWire()
    ensures CodeUnits('\U{13400}') == [0xD80D, 0xDC00]
    ensures NoCr("/\U{13400}")
    ensures WriteBytes("/\U{13400}") == "/\r\0"
  {
    assert "/\U{13400}" == ['/'] + ['\U{13400}'];
    WriteBytesAppend(['/'], ['\U{13400}']);
    WriteBytesSingle('/');
    WriteBytesSingle('\U{13400}');
  }

  /**
   * The text built from a response: the first `readLine` result (the text
   * `null` when the stream is empty), then every further line, with the line
   * terminators dropped.
   */
  function ResponseText(stream: seq<string>): string
  {
    AsText(if stream == [] then None else Some(stream[0]))
    + (if stream == [] then "" else Concat(stream[1..]))
  }

  /** A non-empty response is the plain concatenation of its lines. */
  lemma ResponseIsConcat(stream: seq<string>)
    requires stream != []
    ensures ResponseText(stream) == Concat(stream)
    ensures |ResponseText(stream)| == LengthSum(stream)
  {
    assert stream == [stream[0]] + stream[1..];
    ConcatAppend([stream[0]], stream[1..]);
    assert Concat([stream[0]]) == stream[0] by {
      assert [stream[0]][..0] == [];
    }
    ConcatLength(stream);
  }

  /** An empty response cannot be told apart from a one-line body reading `null`. */
  lemma EmptyResponseReadsNull()
    ensures ResponseText([]) == "null"
    ensures ResponseText([]) == ResponseText(["null"])
  {
    assert Concat([]) == [];
  }

}
