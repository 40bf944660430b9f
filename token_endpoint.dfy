/** Tenant extraction from a legacy OAuth 2.0 token endpoint URL
    (`ServicePrincipal.getTenantFromTokenEndpoint`): a whole-string match
    against a pattern made of the scheme `https://`, a host of characters in
    `[a-zA-Z0-9.]`, a `/`, a segment of characters in `[a-z0-9-]`, an
    optional `/` and any rest; then a split on `/` and the field at index 3. */
module TokenEndpoint {
  import opened JavaStrings

  const Scheme: string := "https://"

  /** The host class `[a-zA-Z0-9\.]`. */
  predicate IsHostChar(c: char) {
    'a' <= c <= 'z' || 'A' <= c <= 'Z' || '0' <= c <= '9' || c == '.'
  }

  /** The first-segment class `[a-z0-9\-]`. */
  predicate IsSegmentChar(c: char) {
    'a' <= c <= 'z' || '0' <= c <= '9' || c == '-'
  }

  /** The characters that a regex `.` does not match: Java's line terminators. */
  predicate IsLineTerminator(c: char) {
    c == '\n' || c == '\r' || c == '\U{85}' || c == '\U{2028}' || c == '\U{2029}'
  }

  /** The pattern matches all of `s` with the host ending at the `/` at `i`,
      the segment (any number of `[a-z0-9-]` characters) spanning
      `i + 1 .. j`, the optional `/` spanning `j .. k`, and the final `.`
      repetition the rest. The closing `$` adds nothing, because
      `String.matches` requires the whole input to be matched. */
  ghost predicate MatchesAt(s: string, i: int, j: int, k: int) {
    && |Scheme| <= i < j <= k <= |s|
    && s[..|Scheme|] == Scheme
    && (forall p :: |Scheme| <= p < i ==> IsHostChar(s[p]))
    && s[i] == '/'
    && (forall p :: i + 1 <= p < j ==> IsSegmentChar(s[p]))
    && (k == j || (k == j + 1 && s[j] == '/'))
    && (forall p :: k <= p < |s| ==> !IsLineTerminator(s[p]))
  }

  /** `String.matches` of the endpoint pattern, in its literal meaning: some
      choice of where the host, the segment and the optional `/` end makes
      every part match. A match needs the scheme and, after it, nothing but
      host characters, the `/`, segment characters and non-terminators. */
  ghost predicate RegexMatches(s: string)
    ensures RegexMatches(s) ==> |Scheme| < |s| && s[..|Scheme|] == Scheme
    ensures RegexMatches(s) ==> forall p :: |Scheme| <= p < |s| ==> !IsLineTerminator(s[p])
  {
    exists i, j, k :: MatchesAt(s, i, j, k)
  }

  /** Position of the `/` that ends the host: the first `/` after the scheme,
      or `|s|` when there is none. */
  function HostEnd(s: string): (i: nat)
    requires |s| >= |Scheme|
    ensures |Scheme| <= i <= |s|
    ensures i < |s| ==> s[i] == '/'
    ensures forall p :: |Scheme| <= p < i ==> s[p] != '/'
  {
    |Scheme| + IndexOf(s[|Scheme|..], '/')
  }

  /** The match decided directly: `https://`, host characters up to the next
      `/`, that `/`, and no line terminator after it. The segment class does
      not constrain anything, since it may match nothing and `.*` takes the
      rest. */
  predicate MatchesEndpointPattern(s: string)
    ensures MatchesEndpointPattern(s) ==> |Scheme| < |s| && s[..|Scheme|] == Scheme
  {
    && |s| >= |Scheme|
    && s[..|Scheme|] == Scheme
    && var i := HostEnd(s);
    && i < |s|
    && (forall p :: |Scheme| <= p < i ==> IsHostChar(s[p]))
    && (forall p :: i < p < |s| ==> !IsLineTerminator(s[p]))
  }

  /** The direct decision agrees with the regex in both directions. */
  lemma MatchesEndpointPatternIsRegex(s: string)
    ensures MatchesEndpointPattern(s) <==> RegexMatches(s)
  {
    if MatchesEndpointPattern(s) {
      var i := HostEnd(s);
      assert MatchesAt(s, i, i + 1, i + 1);
    }
    if RegexMatches(s) {
      var i, j, k :| MatchesAt(s, i, j, k);
      forall p | |Scheme| <= p < i ensures s[p] != '/' {
        assert IsHostChar(s[p]);
      }
      assert HostEnd(s) == i;
      forall p | i < p < |s| ensures !IsLineTerminator(s[p]) {
        if p < j {
          assert IsSegmentChar(s[p]);
        }
      }
    }
  }

  /** The text after `https://<host>/` up to the next `/` or the end. */
  function SegmentAfterHost(s: string): (seg: string)
    requires MatchesEndpointPattern(s)
    ensures '/' !in seg
    ensures var rest := s[HostEnd(s) + 1..];
            |seg| <= |rest| && rest[..|seg|] == seg && (|seg| == |rest| || rest[|seg|] == '/')
  {
    var rest := s[HostEnd(s) + 1..];
    rest[..IndexOf(rest, '/')]
  }

  /** `getTenantFromTokenEndpoint`. */
  function TenantFromTokenEndpoint(s: string): (tenant: string)
    ensures tenant != "" ==> MatchesEndpointPattern(s)
    ensures '/' !in tenant
  {
    if !MatchesEndpointPattern(s) then ""
    else
      var parts := Split(s, '/');
      if |parts| < 4 then ""
      else
        FieldsAreSeparatorFree(s, '/');
        parts[3]
  }

  /** The scheme `https://` is `https:` followed by two slashes. */
  lemma SchemeShape(s: string)
    requires |s| >= |Scheme| && s[..|Scheme|] == Scheme
    ensures s[..6] == "https:" && s[6] == '/' && s[7] == '/'
    ensures forall k :: 0 <= k < 6 ==> s[k] != '/'
  {
    assert s[..6] == "https:" by {
      assert s[..6] == s[..|Scheme|][..6];
    }
    assert s[6] == '/' && s[7] == '/' by {
      assert s[6] == s[..|Scheme|][6] && s[7] == s[..|Scheme|][7];
    }
  }

  /** A string whose first `/` is at index 6 and is followed by another `/`
      splits into its first six characters, an empty field, then the fields
      after the two slashes. */
  lemma FieldsAfterScheme(s: string)
    requires |s| >= 8 && s[6] == '/' && s[7] == '/'
    requires forall k :: 0 <= k < 6 ==> s[k] != '/'
    ensures Fields(s, '/') == [s[..6], ""] + Fields(s[8..], '/')
  {
    var s7 := s[7..];
    FieldsStep(s, '/', 6);
    FieldsStep(s7, '/', 0);
    assert s7[..0] == "" && s7[1..] == s[8..];
  }

  /** The fields of a matching URL: `https:`, the empty field between the two
      slashes, the host, then the fields of what follows the host's `/`. */
  lemma FieldsOfEndpoint(s: string)
    requires MatchesEndpointPattern(s)
    ensures Fields(s, '/') == ["https:", "", s[|Scheme|..HostEnd(s)]] + Fields(s[HostEnd(s) + 1..], '/')
  {
    var i := HostEnd(s);
    var s8 := s[|Scheme|..];
    SchemeShape(s);
    FieldsAfterScheme(s);
    FieldsStep(s8, '/', i - |Scheme|);
    assert s8[..i - |Scheme|] == s[|Scheme|..i] && s8[i - |Scheme| + 1..] == s[i + 1..];
  }

  /** When the match succeeds the tenant is the segment after the host;
      otherwise it is empty. Index 3 of the split is that segment, and when
      the split is shorter than 4 the segment was an empty field that Java's
      split dropped as trailing. */
  lemma {:induction false} TenantIsSegmentAfterHost(s: string)
    ensures TenantFromTokenEndpoint(s) == if MatchesEndpointPattern(s) then SegmentAfterHost(s) else ""
  {
    if MatchesEndpointPattern(s) {
      FieldsOfEndpoint(s);
      var fs := Fields(s, '/');
      var parts := Split(s, '/');
      assert s[6] == Scheme[6];
      assert '/' in s;
      assert fs[3] == Fields(s[HostEnd(s) + 1..], '/')[0] == SegmentAfterHost(s);
      if |parts| >= 4 {
        assert parts[3] == fs[3];
      } else {
        assert fs[3] == "";
      }
    }
  }

  /** An endpoint built from a host of host characters, a segment without
      `/`, and a tail that is empty or starts with `/`, with no line
      terminator after the host, yields exactly that segment. */
  lemma TenantOfComposedEndpoint(h: string, seg: string, tail: string)
    requires forall p :: 0 <= p < |h| ==> IsHostChar(h[p])
    requires forall p :: 0 <= p < |seg| ==> seg[p] != '/' && !IsLineTerminator(seg[p])
    requires forall p :: 0 <= p < |tail| ==> !IsLineTerminator(tail[p])
    requires tail == "" || tail[0] == '/'
    ensures TenantFromTokenEndpoint(Scheme + h + "/" + seg + tail) == seg
  {
    var s := Scheme + h + "/" + seg + tail;
    var i := |Scheme| + |h|;
    assert s[..|Scheme|] == Scheme;
    assert s[|Scheme|..] == h + "/" + seg + tail;
    assert IndexOf(h + "/" + seg + tail, '/') == |h| by {
      var u := h + "/" + seg + tail;
      forall p | 0 <= p < |h| ensures u[p] != '/' {
        assert u[p] == h[p] && IsHostChar(h[p]);
      }
      assert u[|h|] == '/';
    }
    assert HostEnd(s) == i;
    var rest := s[i + 1..];
    assert rest == seg + tail;
    forall p | i < p < |s| ensures !IsLineTerminator(s[p]) {
      assert s[p] == rest[p - i - 1];
      if p - i - 1 < |seg| {
        assert rest[p - i - 1] == seg[p - i - 1];
      } else {
        assert rest[p - i - 1] == tail[p - i - 1 - |seg|];
      }
    }
    forall p | |Scheme| <= p < i ensures IsHostChar(s[p]) {
      assert s[p] == h[p - |Scheme|];
    }
    assert MatchesEndpointPattern(s);
    assert IndexOf(rest, '/') == |seg| by {
      forall p | 0 <= p < |seg| ensures rest[p] != '/' {
        assert rest[p] == seg[p];
      }
      if tail != "" {
        assert rest[|seg|] == tail[0];
      }
    }
    assert rest[..|seg|] == seg;
    TenantIsSegmentAfterHost(s);
  }

  /** A `https://` URL with no `/` after the host yields no tenant. */
  lemma NoPathNoTenant(s: string)
    requires |s| >= |Scheme| && s[..|Scheme|] == Scheme
    requires forall p :: |Scheme| <= p < |s| ==> s[p] != '/'
    ensures TenantFromTokenEndpoint(s) == ""
  {
    assert HostEnd(s) == |s|;
  }

  /** The usual Azure login URL gives the tenant in its first path segment. */
  lemma ExampleLoginUrl()
    ensures TenantFromTokenEndpoint("https://" + "login.microsoftonline.com" + "/" + "abc-123" + "/oauth2/token") == "abc-123"
  {
    TenantOfComposedEndpoint("login.microsoftonline.com", "abc-123", "/oauth2/token");
  }

  /** Upper-case tenants pass, although the segment class is lower case. */
  lemma ExampleUpperCaseTenant()
    ensures TenantFromTokenEndpoint("https://h/ABC/x") == "ABC"
  {
    TenantOfComposedEndpoint("h", "ABC", "/x");
    assert Scheme + "h" + "/" + "ABC" + "/x" == "https://h/ABC/x";
  }

  /** Without a `/` after the host there is no tenant. */
  lemma ExampleNoPath()
    ensures TenantFromTokenEndpoint("https://login.microsoftonline.com") == ""
  {
    NoPathNoTenant("https://login.microsoftonline.com");
  }

  /** An empty first segment gives no tenant, whether or not more follows:
      at index 3 of the split stands the empty field, or nothing at all once
      the trailing empty fields are dropped. */
  lemma ExamplesEmptySegment()
    ensures TenantFromTokenEndpoint("https://h/") == ""
    ensures TenantFromTokenEndpoint("https://h//x") == ""
  {
    TenantOfComposedEndpoint("h", "", "");
    assert Scheme + "h" + "/" + "" + "" == "https://h/";
    TenantOfComposedEndpoint("h", "", "/x");
    assert Scheme + "h" + "/" + "" + "/x" == "https://h//x";
  }

  /** A scheme other than `https` gives no tenant. */
  lemma ExampleHttpScheme()
    ensures TenantFromTokenEndpoint("http://h/t") == ""
  {
    var s := "http://h/t";
    assert s[4] != Scheme[4];
    TenantIsSegmentAfterHost(s);
  }

  /** A host character outside `[a-zA-Z0-9.]` gives no tenant. */
  lemma ExampleBadHostChar()
    ensures TenantFromTokenEndpoint("https://my_host/t") == ""
  {
    var s := "https://my_host/t";
    assert HostEnd(s) > 10 by {
      assert s[8] != '/' && s[9] != '/' && s[10] != '/';
    }
    assert !IsHostChar(s[10]);
    TenantIsSegmentAfterHost(s);
  }
}
