/** The per-line logic of `parseProxies` (main.go): each line of the proxy
    list is trimmed; blank lines and `#` comments are skipped; the rest is split
    at `:` and kept only with two fields (`host:port`) or four
    (`host:port:user:pass`). Opening and scanning the file is not modelled:
    the input is the file's lines. */
module ProxyList {
  import opened Wrappers
  import opened Strings
  import opened Proxies

  /** The proxy one line of the list describes, if any. */
  function ParseLine(line: string): (r: Option<Proxy>)
  {
    var t := TrimSpace(line);
    if t == "" || HasPrefix(t, "#") then None else FromFields(Split(t, ':'))
  }

  /** The `switch len(parts)` of `parseProxies`. */
  function FromFields(parts: seq<string>): Option<Proxy>
  {
    if |parts| == 2 then Some(Proxy(parts[0], parts[1], "", ""))
    else if |parts| == 4 then Some(Proxy(parts[0], parts[1], parts[2], parts[3]))
    else None
  }

  function Accepted(line: string): (ps: seq<Proxy>)
    ensures |ps| <= 1
  {
    match ParseLine(line)
    case Some(p) => [p]
    case None => []
  }

  /** The proxies of a list of lines, in the order of their lines. */
  function ParseLines(lines: seq<string>): (ps: seq<Proxy>)
    ensures |ps| <= |lines|
  {
    if lines == [] then [] else ParseLines(lines[..|lines| - 1]) + Accepted(lines[|lines| - 1])
  }

  /** The scanning loop of `parseProxies`, appending each accepted line's proxy. */
  method ParseProxies(lines: seq<string>) returns (proxies: seq<Proxy>)
    ensures proxies == ParseLines(lines)
    ensures |proxies| <= |lines|
  {
    proxies := [];
    for i := 0 to |lines|
      invariant proxies == ParseLines(lines[..i])
    {
      assert lines[..i + 1][..i] == lines[..i];
      var line := TrimSpace(lines[i]);
      if line == "" || HasPrefix(line, "#") {
        continue;
      }
      var parts := Split(line, ':');
      if |parts| == 2 {
        proxies := proxies + [Proxy(parts[0], parts[1], "", "")];
      } else if |parts| == 4 {
        proxies := proxies + [Proxy(parts[0], parts[1], parts[2], parts[3])];
      }
    }
    assert lines[..|lines|] == lines;
  }

  /** Parsing is line by line: the proxies of `a + b` are those of `a`
      followed by those of `b`, so the input order is kept. */
  lemma {:induction false} ParseLinesAppend(a: seq<string>, b: seq<string>)
    ensures ParseLines(a + b) == ParseLines(a) + ParseLines(b)
    decreases |b|
  {
    if b == [] {
      assert a + b == a;
    } else {
      var b' := b[..|b| - 1];
      assert (a + b)[..|a + b| - 1] == a + b';
      assert (a + b)[|a + b| - 1] == b[|b| - 1];
      ParseLinesAppend(a, b');
    }
  }

  /** Which lines are dropped: the blank ones, the comments, and those
      whose colon count is neither one nor three. */
  lemma ParseLineRejects(line: string)
    ensures var t := TrimSpace(line);
      ParseLine(line).None? <==>
        (t == "" || t[0] == '#' || (multiset(t)[':'] != 1 && multiset(t)[':'] != 3))
  {
    SplitCount(TrimSpace(line), ':');
  }

  /** What an accepted line holds: colon-free fields, and the trimmed line
      is exactly `host:port` (with empty credentials) or `host:port:user:pass`. */
  lemma ParseLineAccepts(line: string, p: Proxy)
    requires ParseLine(line) == Some(p)
    ensures ColonFree(p)
    ensures var t := TrimSpace(line);
      || t == Joined(p)
      || (t == p.ip + ":" + p.port && p.username == "" && p.password == "")
  {
    var t := TrimSpace(line);
    var parts := Split(t, ':');
    assert FromFields(parts) == Some(p);
    JoinSplit(t, ':');
    FieldsJoin(parts, p);
  }

  /** The fields a proxy is built from, joined back with colons. */
  lemma FieldsJoin(parts: seq<string>, p: Proxy)
    requires FromFields(parts) == Some(p)
    requires forall k :: 0 <= k < |parts| ==> ':' !in parts[k]
    ensures ColonFree(p)
    ensures || Join(parts, ':') == Joined(p)
            || (Join(parts, ':') == p.ip + ":" + p.port && p.username == "" && p.password == "")
  {
    if |parts| == 2 {
      assert parts[1..] == [p.port];
    } else {
      Join4(parts, ':');
    }
  }

  /** A proxy whose fields hold no colon and no white space, and whose host
      does not start with `#`. */
  predicate Clean(p: Proxy)
  {
    && ColonFree(p)
    && (forall i :: 0 <= i < |p.ip| ==> !IsSpace(p.ip[i]))
    && (forall i :: 0 <= i < |p.password| ==> !IsSpace(p.password[i]))
    && (forall i :: 0 <= i < |p.port| ==> !IsSpace(p.port[i]))
    && !HasPrefix(p.ip, "#")
  }

  /** A line that is already trimmed and does not start with `#` is parsed
      from its colon-separated fields. */
  lemma ParseTrimmed(s: string)
    requires s != [] && !IsSpace(s[0]) && !IsSpace(s[|s| - 1])
    requires s[0] != '#'
    ensures ParseLine(s) == FromFields(Split(s, ':'))
  {
    TrimSpaceUnchanged(s);
    assert !HasPrefix(s, "#") by {
      assert s[..1][0] == s[0];
    }
  }

  /** The first and last characters of `Joined(p)`. */
  lemma JoinedEnds(p: Proxy)
    ensures Joined(p)[0] == if p.ip != "" then p.ip[0] else ':'
    ensures Joined(p)[|Joined(p)| - 1] == if p.password != "" then p.password[|p.password| - 1] else ':'
  {
    var s := Joined(p);
    var tail := ":" + p.port + ":" + p.username + ":" + p.password;
    assert s == p.ip + tail && tail[0] == ':';
    var init := p.ip + ":" + p.port + ":" + p.username + ":";
    assert s == init + p.password && init[|init| - 1] == ':';
  }

  /** A clean proxy written as `host:port:user:pass` parses back to itself. */
  lemma ParseJoined(p: Proxy)
    requires Clean(p)
    ensures ParseLine(Joined(p)) == Some(p)
  {
    var s := Joined(p);
    JoinedEnds(p);
    assert !IsSpace(':') && ':' != '#';
    ParseTrimmed(s);
    JoinedSplits(p);
    var parts := [p.ip, p.port, p.username, p.password];
    assert FromFields(parts) == Some(p);
    assert ParseLine(s) == FromFields(parts);
  }

  /** A clean proxy without credentials written as `host:port` parses back to itself. */
  lemma ParseHostPort(p: Proxy)
    requires Clean(p) && p.username == "" && p.password == ""
    ensures ParseLine(p.ip + ":" + p.port) == Some(p)
  {
    var s := p.ip + ":" + p.port;
    assert s[0] == if p.ip != "" then p.ip[0] else ':';
    assert s[|s| - 1] == if p.port != "" then p.port[|p.port| - 1] else ':';
    assert !IsSpace(':') && ':' != '#';
    ParseTrimmed(s);
    var parts := [p.ip, p.port];
    assert s == Join(parts, ':') by {
      assert parts[1..] == [p.port];
    }
    SplitJoin(parts, ':');
  }
}
