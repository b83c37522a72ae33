/**
  `strip_domain`: reduce a domain name or URL to its base domain name, and
  the `_ip_address` matcher it uses to leave dotted-quad addresses alone.

  Two things the core takes from outside are parameters here: the set of
  two-label top-level domains (read from `data/tldlist.json` when the module
  is loaded) and `urllib.parse.urlparse(...).netloc`.
 */
module Domain {
  import opened Text

  /** `[0-9]{1,3}`: one field of a dotted quad. */
  predicate IsField(p: string)
  {
    1 <= |p| <= 3 && forall i :: 0 <= i < |p| ==> IsDigit(p[i])
  }

  /** Four fields separated by three dots, and nothing else. */
  predicate IsDottedQuad(s: string)
  {
    var parts := Split(s, '.');
    |parts| == 4 && forall k :: 0 <= k < 4 ==> IsField(parts[k])
  }

  /**
    The regex `^[0-9]{1,3}(?:\.[0-9]{1,3}){3}$` as a left-to-right scan:
    `dots` dots have been read so far and the current field has `run` digits.
   */
  function ScanQuad(t: string, dots: nat, run: nat): bool
    decreases |t|
  {
    if t == [] then dots == 3 && run >= 1
    else if IsDigit(t[0]) then run < 3 && ScanQuad(t[1..], dots, run + 1)
    else if t[0] == '.' then run >= 1 && dots < 3 && ScanQuad(t[1..], dots + 1, 0)
    else false
  }

  /** `_ip_address.match(s)`: the scan, on the string the final `$` sees. */
  predicate IpAddressMatch(s: string)
  {
    ScanQuad(DropFinalNewline(s), 0, 0)
  }

  predicate AllDigits(p: string)
  {
    forall i :: 0 <= i < |p| ==> IsDigit(p[i])
  }

  /** What the scan accepts from a point inside the text, in terms of the dot-separated parts still to come. */
  lemma {:induction false} ScanQuadMeaning(t: string, dots: nat, run: nat)
    requires dots <= 3 && run <= 3
    ensures ScanQuad(t, dots, run) <==>
      var parts := Split(t, '.');
      && dots + |parts| == 4
      && 1 <= run + |parts[0]| <= 3
      && AllDigits(parts[0])
      && forall k :: 1 <= k < |parts| ==> IsField(parts[k])
    decreases |t|
  {
    if t != [] {
      var parts, rest := Split(t, '.'), Split(t[1..], '.');
      if IsDigit(t[0]) {
        if run < 3 {
          ScanQuadMeaning(t[1..], dots, run + 1);
        }
        assert parts[0] == [t[0]] + rest[0];
        assert AllDigits(parts[0]) <==> AllDigits(rest[0]) by {
          forall i | 0 <= i < |rest[0]| ensures rest[0][i] == parts[0][i + 1] { }
        }
        forall k | 1 <= k < |parts| ensures parts[k] == rest[k] { }
      } else if t[0] == '.' {
        if run >= 1 && dots < 3 {
          ScanQuadMeaning(t[1..], dots + 1, 0);
        }
        assert parts == [[]] + rest;
        assert |parts| == |rest| + 1;
        assert IsField(rest[0]) <==> 1 <= |rest[0]| <= 3 && AllDigits(rest[0]);
        forall m | 0 <= m < |rest| ensures parts[m + 1] == rest[m] { }
      } else {
        assert parts[0][0] == t[0];
      }
    }
  }

  /** The matcher accepts exactly four fields of one to three digits, dot-separated, after one final newline is set aside. */
  lemma IpAddressMeansDottedQuad(s: string)
    ensures IpAddressMatch(s) <==> IsDottedQuad(DropFinalNewline(s))
  {
    var t := DropFinalNewline(s);
    var parts := Split(t, '.');
    ScanQuadMeaning(t, 0, 0);
    if IsDottedQuad(t) {
      assert IsField(parts[0]);
    }
  }

  /**
    The host part: the lowercased input, or the network location of it when
    it looks like a URL (it holds `/` or `:`).
   */
  function Host(domain: string, netloc: string -> string): (h: string)
    ensures '/' !in domain && ':' !in domain ==> h == Lower(domain)
  {
    LowerKeepsNonLetters(domain, '/');
    LowerKeepsNonLetters(domain, ':');
    var d := Lower(domain);
    if '/' in d || ':' in d then netloc(d) else d
  }

  /** The last `k` labels of `parts`, joined with dots. */
  function LastLabels(parts: seq<string>, k: nat): string
    requires k <= |parts|
  {
    Join(parts[|parts| - k..], '.')
  }

  /**
    `strip_domain(domain)`, with `None` for an input that is neither a domain
    name nor an address. Nothing comes back exactly when the host is no
    address and holds no dot; an address comes back as it is; whatever comes
    back ends the host.
   */
  function StripDomain(domain: string, tlds: set<string>, netloc: string -> string): (r: Option<string>)
    ensures r.None? <==> !IpAddressMatch(Host(domain, netloc)) && '.' !in Host(domain, netloc)
    ensures IpAddressMatch(Host(domain, netloc)) ==> r == Some(Host(domain, netloc))
    ensures r.Some? ==> IsSuffix(r.value, Host(domain, netloc))
  {
    var h := Host(domain, netloc);
    SplitCount(h, '.');
    if IpAddressMatch(h) then
      assert h[|h| - |h|..] == h;
      Some(h)
    else
      var parts := Split(h, '.');
      if |parts| < 2 then None
      else if |parts| >= 3 && LastLabels(parts, 2) in tlds then
        LastLabelsOfHost(h, 3);
        Some(LastLabels(parts, 3))
      else
        LastLabelsOfHost(h, 2);
        Some(LastLabels(parts, 2))
  }

  /**
    A name comes back as the tail of its host: its last three labels when the
    last two form a listed top-level domain and there is a third, otherwise its
    last two labels.
   */
  lemma StripDomainLabels(domain: string, tlds: set<string>, netloc: string -> string)
    requires !IpAddressMatch(Host(domain, netloc)) && '.' in Host(domain, netloc)
    ensures var h := Host(domain, netloc);
      var parts := Split(h, '.');
      var r := StripDomain(domain, tlds, netloc);
      && r.Some?
      && IsSuffix(r.value, h)
      && (|Split(r.value, '.')| == 3 <==> |parts| >= 3 && LastLabels(parts, 2) in tlds)
      && 2 <= |Split(r.value, '.')| <= 3
      && Split(r.value, '.') == parts[|parts| - |Split(r.value, '.')|..]
  {
    var h := Host(domain, netloc);
    var parts := Split(h, '.');
    SplitCount(h, '.');
    var k := if |parts| >= 3 && LastLabels(parts, 2) in tlds then 3 else 2;
    assert StripDomain(domain, tlds, netloc) == Some(LastLabels(parts, k));
    LastLabelsOfHost(h, k);
  }

  /** The last `k` labels of a host, joined, end the host and split back into those labels. */
  lemma LastLabelsOfHost(h: string, k: nat)
    requires k <= |Split(h, '.')|
    ensures var parts := Split(h, '.');
      && IsSuffix(LastLabels(parts, k), h)
      && (k >= 1 ==> Split(LastLabels(parts, k), '.') == parts[|parts| - k..])
  {
    var parts := Split(h, '.');
    var tail := parts[|parts| - k..];
    if k >= 1 {
      JoinSuffix(parts, |parts| - k, '.');
      JoinSplit(h, '.');
      forall j | 0 <= j < |tail| ensures '.' !in tail[j] {
        assert tail[j] == parts[|parts| - k + j];
      }
      SplitJoin(tail, '.');
    }
  }

  /** Lowercasing the input first changes nothing. */
  lemma StripDomainIgnoresCase(domain: string, tlds: set<string>, netloc: string -> string)
    ensures StripDomain(Lower(domain), tlds, netloc) == StripDomain(domain, tlds, netloc)
  {
    LowerIdempotent(domain);
    assert Host(Lower(domain), netloc) == Host(domain, netloc);
  }

  /** A result of two or three labels is never taken for an address. */
  lemma FewLabelsNoAddress(v: string)
    requires 2 <= |Split(v, '.')| <= 3
    ensures !IpAddressMatch(v)
  {
    var t := DropFinalNewline(v);
    SplitSize(v, '.');
    SplitSize(t, '.');
    if t != v {
      assert v == t + [v[|v| - 1]];
      assert multiset(v) == multiset(t) + multiset([v[|v| - 1]]);
    }
    IpAddressMeansDottedQuad(v);
  }

  /** An address holds only digits, dots and at most a final newline, so it is lowercase and does not look like a URL. */
  lemma AddressIsPlain(s: string)
    requires IpAddressMatch(s)
    ensures forall i :: 0 <= i < |s| ==> s[i] == '.' || IsDigit(s[i]) || s[i] == '\n'
    ensures '/' !in s && ':' !in s && Lower(s) == s
  {
    var t := DropFinalNewline(s);
    var parts := Split(t, '.');
    IpAddressMeansDottedQuad(s);
    forall k, i | 0 <= k < |parts| && 0 <= i < |parts[k]|
      ensures IsDigit(parts[k][i])
    {
      assert IsField(parts[k]);
    }
    SplitDigitsOnly(t, '.');
    forall i | 0 <= i < |s|
      ensures s[i] == '.' || IsDigit(s[i]) || s[i] == '\n'
    {
      if i < |t| {
        assert s[i] == t[i];
      }
    }
    assert forall i :: 0 <= i < |s| ==> Lower(s)[i] == s[i];
  }

  /** Stripping an address a second time returns it unchanged. */
  lemma StripDomainAddressIdempotent(domain: string, tlds: set<string>, netloc: string -> string)
    requires IpAddressMatch(Host(domain, netloc))
    ensures var v := StripDomain(domain, tlds, netloc).value;
      StripDomain(v, tlds, netloc) == Some(v)
  {
    AddressIsPlain(Host(domain, netloc));
  }

  /** A lowercase name that does not look like a URL is its own host, and stripping keeps the last labels of it. */
  lemma StripPlainName(v: string, tlds: set<string>, netloc: string -> string)
    requires '/' !in v && ':' !in v && Lower(v) == v
    requires 2 <= |Split(v, '.')| <= 3
    ensures var vparts := Split(v, '.');
      StripDomain(v, tlds, netloc) ==
        if |vparts| == 3 && LastLabels(vparts, 2) in tlds then Some(v)
        else Some(LastLabels(vparts, 2))
  {
    FewLabelsNoAddress(v);
    assert Host(v, netloc) == v;
    var vparts := Split(v, '.');
    JoinSplit(v, '.');
    assert vparts[0..] == vparts;
  }

  /** Stripping a stripped name a second time returns it unchanged, when it is lowercase and does not look like a URL. */
  lemma StripDomainNameIdempotent(domain: string, tlds: set<string>, netloc: string -> string)
    requires !IpAddressMatch(Host(domain, netloc))
    requires var r := StripDomain(domain, tlds, netloc);
      r.Some? && '/' !in r.value && ':' !in r.value && Lower(r.value) == r.value
    ensures var v := StripDomain(domain, tlds, netloc).value;
      StripDomain(v, tlds, netloc) == Some(v)
  {
    StripDomainLabels(domain, tlds, netloc);
    var h := Host(domain, netloc);
    var parts := Split(h, '.');
    var v := StripDomain(domain, tlds, netloc).value;
    var vparts := Split(v, '.');
    StripPlainName(v, tlds, netloc);
    if |vparts| == 3 {
      assert vparts[1..] == parts[|parts| - 2..];
      assert LastLabels(vparts, 2) == LastLabels(parts, 2);
    } else {
      JoinSplit(v, '.');
      assert vparts[0..] == vparts;
    }
  }

  /**
    `strip_domain` is idempotent on every result that holds neither `/` nor
    `:` and is lowercase; every address result is such a result.
   */
  lemma StripDomainIdempotent(domain: string, tlds: set<string>, netloc: string -> string)
    requires var r := StripDomain(domain, tlds, netloc);
      r.Some? && '/' !in r.value && ':' !in r.value && Lower(r.value) == r.value
    ensures var v := StripDomain(domain, tlds, netloc).value;
      StripDomain(v, tlds, netloc) == Some(v)
  {
    if IpAddressMatch(Host(domain, netloc)) {
      StripDomainAddressIdempotent(domain, tlds, netloc);
    } else {
      StripDomainNameIdempotent(domain, tlds, netloc);
    }
  }
}
