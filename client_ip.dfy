/** Resolution of the client address of a tracking request (`get_client_ip`).
    Request headers are a map from canonical header name to value; the
    transport-level peer address is a parameter. */
module ClientIp {

  const ForwardedFor := "X-Forwarded-For"
  const RealIp := "X-Real-IP"

  /** The characters Python's `str.isspace()` accepts, which are the ones
      `str.strip()` removes when called without arguments. */
  predicate IsSpace(c: char) {
    || '\t' <= c <= '\r'
    || '\U{1C}' <= c <= ' '
    || c == '\U{85}' || c == '\U{A0}' || c == '\U{1680}'
    || '\U{2000}' <= c <= '\U{200A}'
    || c == '\U{2028}' || c == '\U{2029}' || c == '\U{202F}' || c == '\U{205F}' || c == '\U{3000}'
  }

  predicate AllSpace(s: string) {
    forall i | 0 <= i < |s| :: IsSpace(s[i])
  }

  /** Neither the first nor the last character of `s` is whitespace. */
  predicate NoEdgeSpace(s: string) {
    s == [] || (!IsSpace(s[0]) && !IsSpace(s[|s| - 1]))
  }

  /** `r` is what remains of `s` once the whitespace on both ends is gone:
      `s` is some whitespace, then `r`, then some whitespace. */
  ghost predicate StrippedFrom(s: string, r: string) {
    && NoEdgeSpace(r)
    && exists i | 0 <= i <= |s| - |r| :: s[i..i + |r|] == r && AllSpace(s[..i]) && AllSpace(s[i + |r|..])
  }

  /** `r` is the client named first in a forwarded-for list: the text
      before the first comma of `header` (all of it when there is no comma),
      with the surrounding whitespace removed. */
  ghost predicate ForwardedClient(header: string, r: string) {
    exists k | 0 <= k <= |header| ::
      && ',' !in header[..k]
      && (k == |header| || header[k] == ',')
      && StrippedFrom(header[..k], r)
  }

  /** `s.split(',')[0]`: the longest prefix of `s` without a comma. */
  function FirstSegment(s: string): (r: string)
    ensures |r| <= |s| && r == s[..|r|]
    ensures ',' !in r
    ensures |r| == |s| || s[|r|] == ','
  {
    if s == [] || s[0] == ',' then [] else [s[0]] + FirstSegment(s[1..])
  }

  /** `s.lstrip()`. */
  function TrimLeft(s: string): (r: string)
    ensures |r| <= |s| && r == s[|s| - |r|..]
    ensures AllSpace(s[..|s| - |r|])
    ensures r == [] || !IsSpace(r[0])
  {
    if s != [] && IsSpace(s[0]) then
      var r := TrimLeft(s[1..]);
      assert s[..|s| - |r|] == [s[0]] + s[1..][..|s| - 1 - |r|];
      r
    else
      s
  }

  /** `s.rstrip()`. */
  function TrimRight(s: string): (r: string)
    ensures |r| <= |s| && r == s[..|r|]
    ensures AllSpace(s[|r|..])
    ensures r == [] || !IsSpace(r[|r| - 1])
  {
    if s != [] && IsSpace(s[|s| - 1]) then
      var r := TrimRight(s[..|s| - 1]);
      assert s[|r|..] == s[..|s| - 1][|r|..] + [s[|s| - 1]];
      r
    else
      s
  }

  /** `s.strip()`. */
  function Strip(s: string): (r: string)
    ensures StrippedFrom(s, r)
  {
    var left := TrimLeft(s);
    var r := TrimRight(left);
    StrippedWitness(s, |s| - |left|, r);
    r
  }

  /** Trimming the right of the left-trimmed rest of `s` strips `s`. */
  lemma StrippedWitness(s: string, i: nat, r: string)
    requires i <= |s| && AllSpace(s[..i])
    requires TrimRight(s[i..]) == r
    requires s[i..] == [] || !IsSpace(s[i])
    ensures StrippedFrom(s, r)
  {
  }

  /** `header.split(',')[0].strip()`. */
  function ForwardedClientOf(header: string): (r: string)
    ensures ForwardedClient(header, r)
    ensures ',' !in r
  {
    var segment := FirstSegment(header);
    var r := Strip(segment);
    assert header[..|segment|] == segment;
    StrippedKeepsOut(segment, r, ',');
    r
  }

  /** Stripping only removes characters: one absent from `s` is absent
      from what is left. */
  lemma StrippedKeepsOut(s: string, r: string, c: char)
    requires StrippedFrom(s, r) && c !in s
    ensures c !in r
  {
  }

  /** A header counts only when it is present and non-empty: the source
      tests the header's value for truthiness. */
  predicate Truthy(headers: map<string, string>, name: string) {
    name in headers && headers[name] != ""
  }

  /** `get_client_ip`: a non-empty forwarded-for header wins, then a
      non-empty real-IP header, then the peer address. */
  function ResolveClientIp(headers: map<string, string>, peer: string): (r: string)
    ensures Truthy(headers, ForwardedFor) ==> ForwardedClient(headers[ForwardedFor], r) && ',' !in r
    ensures !Truthy(headers, ForwardedFor) && Truthy(headers, RealIp) ==> r == headers[RealIp]
    ensures !Truthy(headers, ForwardedFor) && !Truthy(headers, RealIp) ==> r == peer
  {
    if Truthy(headers, ForwardedFor) then ForwardedClientOf(headers[ForwardedFor])
    else if Truthy(headers, RealIp) then headers[RealIp]
    else peer
  }

  /** Stripping stops at the first non-space character from the left. */
  lemma {:induction false} TrimLeftAt(s: string, k: nat)
    requires k <= |s| && AllSpace(s[..k])
    requires k == |s| || !IsSpace(s[k])
    ensures TrimLeft(s) == s[k..]
  {
    if k > 0 {
      assert IsSpace(s[..k][0]);
      assert s[1..][..k - 1] == s[..k][1..];
      TrimLeftAt(s[1..], k - 1);
    }
  }

  /** Any string whose ends are space-free and that is `s` less surrounding
      whitespace is what `Strip` returns: `StrippedFrom` determines it. */
  lemma StripUnique(s: string, r: string)
    requires StrippedFrom(s, r)
    ensures Strip(s) == r
  {
    var i :| 0 <= i <= |s| - |r| && s[i..i + |r|] == r && AllSpace(s[..i]) && AllSpace(s[i + |r|..]);
    if r == [] {
      AllSpaceJoin(s, i);
      TrimLeftAt(s, |s|);
    } else {
      assert s[i] == r[0];
      TrimLeftAt(s, i);
      StripRightOf(s[i..], r);
    }
  }

  /** Two runs of whitespace make one. */
  lemma AllSpaceJoin(s: string, i: nat)
    requires i <= |s| && AllSpace(s[..i]) && AllSpace(s[i..])
    ensures AllSpace(s[..|s|])
  {
  }

  /** Right-trimming a string that is `r` followed by whitespace gives `r`. */
  lemma StripRightOf(left: string, r: string)
    requires r != [] && NoEdgeSpace(r) && |r| <= |left|
    requires left[..|r|] == r && AllSpace(left[|r|..])
    ensures TrimRight(left) == r
  {
  }

  /** The first comma decides the first segment. */
  lemma FirstSegmentAt(s: string, k: nat)
    requires k <= |s| && ',' !in s[..k]
    requires k == |s| || s[k] == ','
    ensures FirstSegment(s) == s[..k]
  {
  }

  /** `ForwardedClient` determines the resolved address uniquely, so it
      is an exact description of `split(',')[0].strip()`. */
  lemma ForwardedClientUnique(header: string, r: string)
    requires ForwardedClient(header, r)
    ensures ForwardedClientOf(header) == r
  {
    var k :| 0 <= k <= |header| && ',' !in header[..k] && (k == |header| || header[k] == ',') && StrippedFrom(header[..k], r);
    FirstSegmentAt(header, k);
    StripUnique(header[..k], r);
  }

  /** The forwarded-for header names a proxy chain; the first entry wins
      over both the real-IP header and the peer address. */
  lemma ForwardedChainExample(peer: string)
    ensures ResolveClientIp(map[ForwardedFor := "1.2.3.4, 5.6.7.8", RealIp := "9.9.9.9"], peer) == "1.2.3.4"
  {
    var header := "1.2.3.4, 5.6.7.8";
    assert header[..7] == "1.2.3.4" && header[7] == ',';
    assert "1.2.3.4"[0..7] == "1.2.3.4" && "1.2.3.4"[..0] == [] && "1.2.3.4"[7..] == [];
    assert ForwardedClient(header, "1.2.3.4");
    ForwardedClientUnique(header, "1.2.3.4");
  }

  /** Without a forwarded-for header, the real-IP header is used verbatim. */
  lemma RealIpExample(peer: string)
    ensures ResolveClientIp(map[RealIp := "9.9.9.9"], peer) == "9.9.9.9"
  {
  }

  /** An empty forwarded-for header is falsy and falls through to the peer
      address when there is no real-IP header either. */
  lemma EmptyForwardedExample(peer: string)
    ensures ResolveClientIp(map[ForwardedFor := ""], peer) == peer
  {
  }
}
