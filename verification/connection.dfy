/** AdConnection of adldap/ad_connection.cpp: the state a session keeps
    (server URI, search base, LDAP handle), how `connect` derives the search
    base from the domain name, and how `search` scopes every query to it.
    The LDAP library itself (ad_login, ad_search) is a parameter. */
module Connection {
  import opened Wrappers
  import opened Text
  import Dn

  /** A live LDAP session; its contents are not modelled. */
  datatype LdapHandle = LdapHandle(id: nat)

  /** The fields of an AdConnection; a null handle is `None`. */
  datatype AdConnection = AdConnection(uri: string, searchBase: string, ldapConnection: Option<LdapHandle>)

  /** A connection as the constructor leaves it.  The constructor body is
      empty; the null handle comes from the member initializer in
      ad_connection.h, which is not part of this model. */
  const Fresh := AdConnection("", "", None)

  /** What ad_login reports: its status code and the handle it leaves in
      the connection's handle slot. */
  datatype LoginResult = LoginResult(status: int, handle: Option<LdapHandle>)

  /** The arguments `search` hands to ad_search. */
  datatype SearchRequest = SearchRequest(handle: Option<LdapHandle>, filter: string, base: string)

  /** What ad_search reports: its status code and the DNs found. */
  datatype SearchResult = SearchResult(status: int, dns: seq<string>)

  predicate IsLetter(c: char)
  {
    'A' <= c <= 'Z' || 'a' <= c <= 'z'
  }

  /** The search base `connect` derives: "DC=" and the ASCII-lowercased
      domain, with only the FIRST '.' turned into ",DC="; later dots stay. */
  function ConnectSearchBase(domain: string): (base: string)
    ensures '.' !in domain ==> base == "DC=" + AsciiLower(domain)
    ensures '.' in domain ==>
      var i := IndexOf(domain, '.');
      base == "DC=" + AsciiLower(domain[..i]) + ",DC=" + AsciiLower(domain[i + 1..])
  {
    var lowered := "DC=" + AsciiLower(domain);
    var pos := IndexOf(lowered, '.');
    LoweredDot(domain);
    if pos < 0 then lowered else lowered[..pos] + ",DC=" + lowered[pos + 1..]
  }

  lemma LowerCharKeeps(x: char, c: char)
    requires !IsLetter(c)
    ensures LowerChar(x) == c <==> x == c
  {
  }

  /** Lowercasing moves no non-letter. */
  lemma {:induction false} AsciiLowerIndexOf(s: string, c: char)
    requires !IsLetter(c)
    ensures IndexOf(AsciiLower(s), c) == IndexOf(s, c)
  {
    var low := AsciiLower(s);
    forall k | 0 <= k < |s| ensures low[k] == c <==> s[k] == c {
      LowerCharKeeps(s[k], c);
    }
    if c in s {
      var k := IndexOf(s, c);
      assert low[..k] == AsciiLower(s[..k]);
      assert c !in low[..k] by {
        forall j | 0 <= j < k ensures low[j] != c {
          assert s[..k][j] == s[j];
        }
      }
      IndexOfUnique(low, c, k);
    } else {
      assert c !in low by {
        forall j | 0 <= j < |low| ensures low[j] != c {
          assert s[j] != c;
        }
      }
    }
  }

  lemma AsciiLowerPrefix(s: string, i: nat)
    requires i <= |s|
    ensures AsciiLower(s)[..i] == AsciiLower(s[..i])
  {
    var low, front := AsciiLower(s), AsciiLower(s[..i]);
    forall k | 0 <= k < i ensures low[..i][k] == front[k] {
      assert s[..i][k] == s[k];
    }
  }

  lemma AsciiLowerSuffix(s: string, i: nat)
    requires i <= |s|
    ensures AsciiLower(s)[i..] == AsciiLower(s[i..])
  {
    var low, back := AsciiLower(s), AsciiLower(s[i..]);
    assert |low[i..]| == |back|;
    forall k | 0 <= k < |back| ensures low[i..][k] == back[k] {
      LowerAt(s, i, k);
    }
  }

  lemma LowerAt(s: string, i: nat, k: nat)
    requires i + k < |s|
    ensures AsciiLower(s)[i..][k] == AsciiLower(s[i..])[k]
  {
    calc {
      AsciiLower(s)[i..][k];
      AsciiLower(s)[i + k];
      LowerChar(s[i + k]);
      { assert s[i..][k] == s[i + k]; }
      LowerChar(s[i..][k]);
      AsciiLower(s[i..])[k];
    }
  }

  /** Slicing after a fixed prefix. */
  lemma PrefixedSlices(p: string, t: string, i: nat)
    requires i < |t|
    ensures (p + t)[..|p| + i] == p + t[..i]
    ensures (p + t)[|p| + i + 1..] == t[i + 1..]
  {
  }

  /** The first dot of "DC=" + lowercase(domain) is the domain's first dot,
      three places on. */
  lemma LoweredDotPosition(domain: string)
    ensures IndexOf("DC=" + AsciiLower(domain), '.') == if '.' in domain then 3 + IndexOf(domain, '.') else -1
  {
    IndexOfAfterPrefix("DC=", AsciiLower(domain), '.');
    AsciiLowerIndexOf(domain, '.');
  }

  lemma LoweredSlices(domain: string, i: nat)
    requires i < |domain|
    ensures ("DC=" + AsciiLower(domain))[..3 + i] == "DC=" + AsciiLower(domain[..i])
    ensures ("DC=" + AsciiLower(domain))[3 + i + 1..] == AsciiLower(domain[i + 1..])
  {
    PrefixedSlices("DC=", AsciiLower(domain), i);
    AsciiLowerPrefix(domain, i);
    AsciiLowerSuffix(domain, i + 1);
  }

  /** Where the first dot of "DC=" + lowercase(domain) sits, and what lies
      on either side of it. */
  lemma {:induction false} LoweredDot(domain: string)
    ensures var lowered := "DC=" + AsciiLower(domain);
      var pos := IndexOf(lowered, '.');
      ('.' !in domain <==> pos < 0)
      && ('.' in domain ==>
            pos == 3 + IndexOf(domain, '.')
            && lowered[..pos] == "DC=" + AsciiLower(domain[..IndexOf(domain, '.')])
            && lowered[pos + 1..] == AsciiLower(domain[IndexOf(domain, '.') + 1..]))
  {
    LoweredDotPosition(domain);
    if '.' in domain {
      LoweredSlices(domain, IndexOf(domain, '.'));
    }
  }

  function GetUri(c: AdConnection): (uri: string)
  {
    c.uri
  }

  function GetSearchBase(c: AdConnection): (base: string)
  {
    c.searchBase
  }

  /** AdConnection::is_connected: the handle is non-null. */
  predicate IsConnected(c: AdConnection)
  {
    c.ldapConnection.Some?
  }

  /** AdConnection::connect: store the URI and the derived search base,
      then log in through `login`, which may replace the handle; the login
      status is returned unchanged. */
  function Connect(c: AdConnection, uri: string, domain: string,
                   login: (string, Option<LdapHandle>) -> LoginResult): (r: (AdConnection, int))
    ensures GetUri(r.0) == uri
    ensures GetSearchBase(r.0) == ConnectSearchBase(domain)
    ensures r.1 == login(uri, c.ldapConnection).status
    ensures IsConnected(r.0) <==> login(uri, c.ldapConnection).handle.Some?
  {
    var stored := c.(uri := uri, searchBase := ConnectSearchBase(domain));
    var outcome := login(stored.uri, stored.ldapConnection);
    (stored.(ldapConnection := outcome.handle), outcome.status)
  }

  /** The request `search` hands to ad_search. */
  function SearchRequestOf(c: AdConnection, filter: string): (req: SearchRequest)
    ensures req.base == GetSearchBase(c)
    ensures req.handle.Some? <==> IsConnected(c)
    ensures req.filter == filter
  {
    SearchRequest(c.ldapConnection, filter, c.searchBase)
  }

  /** AdConnection::search: every query is scoped to the stored base. */
  function Search(c: AdConnection, filter: string, adSearch: SearchRequest -> SearchResult): (r: SearchResult)
  {
    adSearch(SearchRequestOf(c, filter))
  }

  /** After `connect`, every search is scoped to the base derived from the
      domain, on the handle the login left, whatever the filter. */
  lemma SearchAfterConnect(c: AdConnection, uri: string, domain: string,
                           login: (string, Option<LdapHandle>) -> LoginResult,
                           filter: string, adSearch: SearchRequest -> SearchResult)
    ensures var conn := Connect(c, uri, domain, login).0;
      Search(conn, filter, adSearch)
        == adSearch(SearchRequest(login(uri, c.ldapConnection).handle, filter, ConnectSearchBase(domain)))
  {
  }

  /** A fresh connection that logs in successfully is connected; one whose
      login leaves a null handle is not. */
  lemma FreshConnect(uri: string, domain: string, login: (string, Option<LdapHandle>) -> LoginResult)
    ensures IsConnected(Connect(Fresh, uri, domain, login).0) <==> login(uri, None).handle.Some?
    ensures !IsConnected(Fresh)
  {
  }

  lemma SameSuffix(a: string, m: string, x: string, y: string)
    requires a + m + x == a + m + y
    ensures x == y
  {
    assert x == (a + m + x)[|a + m|..];
    assert y == (a + m + y)[|a + m|..];
  }

  /** "DC=" + lowercase(domain) around the domain's first dot. */
  lemma {:induction false} LoweredAroundDot(domain: string)
    requires '.' in domain
    ensures var i := IndexOf(domain, '.');
      && "DC=" + AsciiLower(domain) == "DC=" + AsciiLower(domain[..i]) + ['.'] + AsciiLower(domain[i + 1..])
      && '.' !in "DC=" + AsciiLower(domain[..i])
  {
    var i := IndexOf(domain, '.');
    var lowered := "DC=" + AsciiLower(domain);
    LoweredDotPosition(domain);
    LoweredSlices(domain, i);
    AroundFirst(lowered, '.');
  }

  /** domain_to_domain_dn split at the domain's first dot. */
  lemma {:induction false} DomainDnAtFirstDot(domain: string)
    requires '.' in domain
    ensures var i := IndexOf(domain, '.');
      Dn.DomainToDomainDn(domain)
        == "DC=" + AsciiLower(domain[..i]) + ",DC=" + ReplaceAll(AsciiLower(domain[i + 1..]), '.', ",DC=")
  {
    var i := IndexOf(domain, '.');
    var head, tail := "DC=" + AsciiLower(domain[..i]), AsciiLower(domain[i + 1..]);
    calc {
      Dn.DomainToDomainDn(domain);
      ReplaceAll("DC=" + AsciiLower(domain), '.', ",DC=");
      { LoweredAroundDot(domain); }
      ReplaceAll(head + ['.'] + tail, '.', ",DC=");
      { LoweredAroundDot(domain); ReplaceAtFirst(head, tail, '.', ",DC="); }
      head + ",DC=" + ReplaceAll(tail, '.', ",DC=");
    }
  }

  /** Dots after the first one, counted in the lowercased remainder. */
  lemma DotsAfterFirst(domain: string)
    requires '.' in domain
    ensures Count(domain, '.') == 1 + Count(AsciiLower(domain[IndexOf(domain, '.') + 1..]), '.')
  {
    var rest := domain[IndexOf(domain, '.') + 1..];
    calc {
      Count(domain, '.');
      { CountAround(domain, '.'); }
      1 + Count(rest, '.');
      { AsciiLowerKeepsCount(rest, '.'); }
      1 + Count(AsciiLower(rest), '.');
    }
  }

  /** Replacing the first dot alone finishes the job iff no dot follows. */
  lemma FirstOnlyVsAll(head: string, tail: string)
    ensures head + ",DC=" + tail == head + ",DC=" + ReplaceAll(tail, '.', ",DC=") <==> '.' !in tail
  {
    if '.' in tail {
      ReplaceAllRemoves(tail, '.', ",DC=");
      if head + ",DC=" + tail == head + ",DC=" + ReplaceAll(tail, '.', ",DC=") {
        SameSuffix(head, ",DC=", tail, ReplaceAll(tail, '.', ",DC="));
      }
    } else {
      ReplaceAllNoMatch(tail, '.', ",DC=");
    }
  }

  lemma {:induction false} MatchWithoutDot(domain: string)
    requires '.' !in domain
    ensures ConnectSearchBase(domain) == Dn.DomainToDomainDn(domain)
  {
    LoweredDotPosition(domain);
    ReplaceAllNoMatch("DC=" + AsciiLower(domain), '.', ",DC=");
  }

  lemma {:induction false} MatchWithDot(domain: string)
    requires '.' in domain
    ensures ConnectSearchBase(domain) == Dn.DomainToDomainDn(domain) <==> Count(domain, '.') <= 1
  {
    var i := IndexOf(domain, '.');
    var head, tail := "DC=" + AsciiLower(domain[..i]), AsciiLower(domain[i + 1..]);
    DotParts(domain, i, head, tail);
    FirstDotOnly(ConnectSearchBase(domain), Dn.DomainToDomainDn(domain), head, tail, Count(domain, '.'));
  }

  /** Both search bases and the dot count, around the first dot. */
  lemma DotParts(domain: string, i: int, head: string, tail: string)
    requires '.' in domain && i == IndexOf(domain, '.')
    requires head == "DC=" + AsciiLower(domain[..i]) && tail == AsciiLower(domain[i + 1..])
    ensures ConnectSearchBase(domain) == head + ",DC=" + tail
    ensures Dn.DomainToDomainDn(domain) == head + ",DC=" + ReplaceAll(tail, '.', ",DC=")
    ensures Count(domain, '.') == 1 + Count(tail, '.')
  {
    BaseAtFirstDot(domain);
    DomainDnAtFirstDot(domain);
    DotsAfterFirst(domain);
  }

  lemma BaseAtFirstDot(domain: string)
    requires '.' in domain
    ensures var i := IndexOf(domain, '.');
      ConnectSearchBase(domain) == "DC=" + AsciiLower(domain[..i]) + ",DC=" + AsciiLower(domain[i + 1..])
  {
  }

  lemma FirstDotOnly(base: string, domainDn: string, head: string, tail: string, dots: nat)
    requires base == head + ",DC=" + tail
    requires domainDn == head + ",DC=" + ReplaceAll(tail, '.', ",DC=")
    requires dots == 1 + Count(tail, '.')
    ensures base == domainDn <==> dots <= 1
  {
    FirstOnlyVsAll(head, tail);
    CountZeroIffAbsent(tail, '.');
  }

  /** The search base of `connect` agrees with domain_to_domain_dn exactly
      when the domain has at most one dot. */
  lemma {:induction false} ConnectBaseMatchesDomainDn(domain: string)
    ensures ConnectSearchBase(domain) == Dn.DomainToDomainDn(domain) <==> Count(domain, '.') <= 1
  {
    if '.' in domain {
      MatchWithDot(domain);
    } else {
      CountZeroIffAbsent(domain, '.');
      MatchWithoutDot(domain);
    }
  }

  lemma LowerExamples()
    ensures AsciiLower("A") == "a"
    ensures AsciiLower("B.C") == "b.c"
  {
    assert "A"[1..] == "";
    assert "B.C"[1..] == ".C" && ".C"[1..] == "C" && "C"[1..] == "";
    assert AsciiLower("C") == "c";
    assert AsciiLower(".C") == ".c";
  }

  lemma ThreeLabelSplit(d: string)
    requires d == "A.B.C"
    ensures '.' in d && IndexOf(d, '.') == 1
    ensures d[..1] == "A" && d[2..] == "B.C"
  {
    IndexOfUnique(d, '.', 1);
  }

  lemma ThreeLabelBase(d: string)
    requires d == "A.B.C"
    ensures ConnectSearchBase(d) == "DC=a,DC=b.c"
  {
    ThreeLabelSplit(d);
    calc {
      ConnectSearchBase(d);
      { BaseAtFirstDot(d); }
      "DC=" + AsciiLower(d[..1]) + ",DC=" + AsciiLower(d[2..]);
      { LowerExamples(); }
      "DC=" + "a" + ",DC=" + "b.c";
      "DC=a,DC=b.c";
    }
  }

  lemma ThreeLabelDots(d: string)
    requires d == "A.B.C"
    ensures Count(d, '.') == 2
  {
    assert multiset(d) == multiset{'A', '.', 'B', '.', 'C'};
  }

  /** "A.B.C" connects with base "DC=a,DC=b.c": the third label is never
      split off, and the base is not the domain's DN. */
  lemma ThreeLabelExample(d: string)
    requires d == "A.B.C"
    ensures ConnectSearchBase(d) == "DC=a,DC=b.c"
    ensures ConnectSearchBase(d) != Dn.DomainToDomainDn(d)
  {
    ThreeLabelBase(d);
    ThreeLabelDots(d);
    ConnectBaseMatchesDomainDn(d);
  }

  /** `connect` with the search base derived as domain_to_domain_dn does:
      every dot separates a DC component. */
  function ConnectCorrected(c: AdConnection, uri: string, domain: string,
                            login: (string, Option<LdapHandle>) -> LoginResult): (r: (AdConnection, int))
    ensures GetUri(r.0) == uri
    ensures GetSearchBase(r.0) == Dn.DomainToDomainDn(domain)
    ensures ',' !in domain ==>
      Split(GetSearchBase(r.0), ',') == Dn.DcComponents(Split(AsciiLower(domain), '.'))
      && |Split(GetSearchBase(r.0), ',')| == Count(domain, '.') + 1
    ensures r.1 == login(uri, c.ldapConnection).status
    ensures IsConnected(r.0) <==> login(uri, c.ldapConnection).handle.Some?
  {
    var stored := c.(uri := uri, searchBase := Dn.DomainToDomainDn(domain));
    var outcome := login(stored.uri, stored.ldapConnection);
    var r := (stored.(ldapConnection := outcome.handle), outcome.status);
    if ',' in domain then r else Dn.DomainDnComponents(domain); r
  }

  /** The two derivations differ only on domains with two or more dots. */
  lemma ConnectCorrectedAgrees(c: AdConnection, uri: string, domain: string,
                               login: (string, Option<LdapHandle>) -> LoginResult)
    requires Count(domain, '.') <= 1
    ensures ConnectCorrected(c, uri, domain, login) == Connect(c, uri, domain, login)
  {
    ConnectBaseMatchesDomainDn(domain);
  }
}
