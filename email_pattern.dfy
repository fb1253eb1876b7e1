/** `validateEmail`: the test
    `/^[a-zA-Z0-9._-]+@[a-zA-Z0-9.-]+\.[a-zA-Z]{2,4}(\.[a-zA-Z]{2,4})?$/`,
    given as the shapes of address it describes and as a checker that finds
    the only split that can work. */
module EmailPattern {

  import opened Chars

  /** `[a-zA-Z0-9._-]` */
  predicate IsLocalChar(c: char) {
    IsAsciiLetter(c) || IsDigit(c) || c == '.' || c == '_' || c == '-'
  }

  /** `[a-zA-Z0-9.-]` */
  predicate IsHostChar(c: char) {
    IsAsciiLetter(c) || IsDigit(c) || c == '.' || c == '-'
  }

  /** `[a-zA-Z0-9._-]+` */
  predicate IsLocalPart(s: string) {
    |s| > 0 && forall i | 0 <= i < |s| :: IsLocalChar(s[i])
  }

  /** `[a-zA-Z0-9.-]+` */
  predicate IsHostPart(s: string) {
    |s| > 0 && forall i | 0 <= i < |s| :: IsHostChar(s[i])
  }

  /** `[a-zA-Z]{2,4}` */
  predicate IsTldPart(s: string) {
    2 <= |s| <= 4 && forall i | 0 <= i < |s| :: IsAsciiLetter(s[i])
  }

  /** `s` is local@host.tld with the `@` at `at` and the dot at `dot`. */
  predicate OneTldSplit(s: string, at: int, dot: int) {
    && 0 <= at < dot < |s|
    && s[at] == '@' && s[dot] == '.'
    && IsLocalPart(s[..at]) && IsHostPart(s[at + 1..dot]) && IsTldPart(s[dot + 1..])
  }

  /** `s` is local@host.tld.tld2 with the `@` at `at` and the dots at `dot1`
      and `dot2`. */
  predicate TwoTldSplit(s: string, at: int, dot1: int, dot2: int) {
    && 0 <= at < dot1 < dot2 < |s|
    && s[at] == '@' && s[dot1] == '.' && s[dot2] == '.'
    && IsLocalPart(s[..at]) && IsHostPart(s[at + 1..dot1])
    && IsTldPart(s[dot1 + 1..dot2]) && IsTldPart(s[dot2 + 1..])
  }

  /** The addresses the pattern describes: some split of `s` into a local part,
      `@`, a host, and one or two dotted top-level segments. */
  ghost predicate EmailShape(s: string) {
    || (exists at, dot :: OneTldSplit(s, at, dot))
    || (exists at, dot1, dot2 :: TwoTldSplit(s, at, dot1, dot2))
  }

  /** The index of the first `c` in `s`, or `|s|` when there is none. */
  function IndexOf(s: string, c: char): (i: nat)
    ensures i <= |s|
    ensures i < |s| ==> s[i] == c
    ensures forall j | 0 <= j < i :: s[j] != c
  {
    if s == [] then 0
    else if s[0] == c then 0
    else 1 + IndexOf(s[1..], c)
  }

  /** The index of the last `c` in `s`, or -1 when there is none. */
  function LastIndexOf(s: string, c: char): (i: int)
    ensures -1 <= i < |s|
    ensures 0 <= i ==> s[i] == c
    ensures forall j | i < j < |s| :: s[j] != c
  {
    if s == [] then -1
    else if s[|s| - 1] == c then |s| - 1
    else LastIndexOf(s[..|s| - 1], c)
  }

  /** The part after the `@`: since no top-level segment holds a dot, the
      last segment starts after the last dot, and a second-to-last segment,
      if there is one, after the dot before that. */
  predicate DomainMatches(r: string) {
    var dot := LastIndexOf(r, '.');
    && 0 <= dot
    && IsTldPart(r[dot + 1..])
    && (|| IsHostPart(r[..dot])
        || (var dot1 := LastIndexOf(r[..dot], '.');
            0 <= dot1 && IsTldPart(r[dot1 + 1..dot]) && IsHostPart(r[..dot1])))
  }

  /** `validateEmail(s)`: no part but the local part and the `@` itself may
      hold an `@`, and the local part cannot, so the `@` is the first one. */
  predicate ValidEmail(s: string) {
    var at := IndexOf(s, '@');
    at < |s| && IsLocalPart(s[..at]) && DomainMatches(s[at + 1..])
  }

  /** A segment that holds no dot ends the string after its last dot. */
  lemma LastDotBefore(s: string, dot: int)
    requires 0 <= dot < |s| && s[dot] == '.'
    requires forall j | dot < j < |s| :: IsAsciiLetter(s[j])
    ensures LastIndexOf(s, '.') == dot
  {
  }

  /** The `@` of a split is the first `@` of the string. */
  lemma FirstAt(s: string, at: int)
    requires 0 <= at < |s| && s[at] == '@' && IsLocalPart(s[..at])
    ensures IndexOf(s, '@') == at
  {
  }

  /** Whatever the domain matcher accepts has a host before its last dot:
      a host, a dot and a top-level segment together form a longer host. */
  lemma DomainHasHostBeforeLastDot(r: string)
    requires DomainMatches(r)
    ensures var dot := LastIndexOf(r, '.'); IsHostPart(r[..dot])
  {
    var dot := LastIndexOf(r, '.');
    var dot1 := LastIndexOf(r[..dot], '.');
    if 0 <= dot1 && IsTldPart(r[dot1 + 1..dot]) && IsHostPart(r[..dot1]) {
      HostDotTld(r[..dot1], r[dot1 + 1..dot]);
      assert r[..dot] == r[..dot1] + ['.'] + r[dot1 + 1..dot];
    }
  }

  /** A host, a dot and a top-level segment make a host. */
  lemma HostDotTld(host: string, tld: string)
    requires IsHostPart(host) && IsTldPart(tld)
    ensures IsHostPart(host + ['.'] + tld)
  {
  }

  lemma ValidEmailSound(s: string)
    requires ValidEmail(s)
    ensures exists at, dot :: OneTldSplit(s, at, dot)
  {
    var at := IndexOf(s, '@');
    var r := s[at + 1..];
    var dot := LastIndexOf(r, '.');
    DomainHasHostBeforeLastDot(r);
    assert r[dot + 1..] == s[at + 1 + dot + 1..];
    assert r[..dot] == s[at + 1..at + 1 + dot];
    assert OneTldSplit(s, at, at + 1 + dot);
  }

  /** The optional second top-level segment never changes what is accepted:
      local@host.tld1.tld2 is also local@host'.tld2 with host' = host.tld1. */
  lemma SecondTldRedundant(s: string, at: int, dot1: int, dot2: int)
    requires TwoTldSplit(s, at, dot1, dot2)
    ensures OneTldSplit(s, at, dot2)
  {
    HostDotTld(s[at + 1..dot1], s[dot1 + 1..dot2]);
    assert s[at + 1..dot2] == s[at + 1..dot1] + ['.'] + s[dot1 + 1..dot2];
  }

  lemma DomainOneAccepted(r: string, d: int)
    requires 0 <= d < |r| && r[d] == '.'
    requires IsHostPart(r[..d]) && IsTldPart(r[d + 1..])
    ensures DomainMatches(r)
  {
    LastDotBefore(r, d);
  }

  lemma DomainTwoAccepted(r: string, d1: int, d2: int)
    requires 0 <= d1 < d2 < |r| && r[d1] == '.' && r[d2] == '.'
    requires IsHostPart(r[..d1]) && IsTldPart(r[d1 + 1..d2]) && IsTldPart(r[d2 + 1..])
    ensures DomainMatches(r)
  {
    LastDotBefore(r, d2);
    var p := r[..d2];
    assert p[d1 + 1..] == r[d1 + 1..d2];
    LastDotBefore(p, d1);
    assert p[..d1] == r[..d1];
  }

  lemma OneTldAccepted(s: string, at: int, dot: int)
    requires OneTldSplit(s, at, dot)
    ensures ValidEmail(s)
  {
    FirstAt(s, at);
    var r := s[at + 1..];
    var d := dot - at - 1;
    assert r[d + 1..] == s[dot + 1..];
    assert r[..d] == s[at + 1..dot] by {
      assert |r[..d]| == |s[at + 1..dot]|;
      forall i | 0 <= i < d ensures r[..d][i] == s[at + 1..dot][i] { }
    }
    DomainOneAccepted(r, d);
  }

  lemma TwoTldAccepted(s: string, at: int, dot1: int, dot2: int)
    requires TwoTldSplit(s, at, dot1, dot2)
    ensures ValidEmail(s)
  {
    FirstAt(s, at);
    var r := s[at + 1..];
    var d1, d2 := dot1 - at - 1, dot2 - at - 1;
    assert r[d2 + 1..] == s[dot2 + 1..];
    assert r[d1 + 1..d2] == s[dot1 + 1..dot2];
    assert r[..d1] == s[at + 1..dot1] by {
      assert |r[..d1]| == |s[at + 1..dot1]|;
      forall i | 0 <= i < d1 ensures r[..d1][i] == s[at + 1..dot1][i] { }
    }
    DomainTwoAccepted(r, d1, d2);
  }

  lemma ValidEmailComplete(s: string)
    requires EmailShape(s)
    ensures ValidEmail(s)
  {
    if exists at, dot :: OneTldSplit(s, at, dot) {
      var at, dot :| OneTldSplit(s, at, dot);
      OneTldAccepted(s, at, dot);
    } else {
      var at, dot1, dot2 :| TwoTldSplit(s, at, dot1, dot2);
      TwoTldAccepted(s, at, dot1, dot2);
    }
  }

  /** The checker accepts exactly the addresses of the pattern's shape. */
  lemma ValidEmailIff(s: string)
    ensures ValidEmail(s) <==> EmailShape(s)
  {
    if ValidEmail(s) {
      ValidEmailSound(s);
    }
    OneTldShapeIff(s);
    if EmailShape(s) {
      ValidEmailComplete(s);
    }
  }

  /** The addresses of the pattern are exactly the local@host.tld ones. */
  lemma OneTldShapeIff(s: string)
    ensures EmailShape(s) <==> exists at, dot :: OneTldSplit(s, at, dot)
  {
    if exists at, dot1, dot2 :: TwoTldSplit(s, at, dot1, dot2) {
      var at, dot1, dot2 :| TwoTldSplit(s, at, dot1, dot2);
      SecondTldRedundant(s, at, dot1, dot2);
    }
  }

  /** The empty string is not an address. */
  lemma EmptyIsNotEmail()
    ensures !ValidEmail("")
  {
  }
}
