/**
  The contact form's e-mail shape check, the anchored pattern
  `^[^\s@]+@[^\s@]+\.[^\s@]+$`, matched by hand.

  Three descriptions of the same language are given and proved equal:
  - `IsValidEmail`: a left-to-right scan with a six-phase automaton (what runs);
  - `MatchesPattern`: the pattern read literally, one witness per group;
  - `EmailShape`: the declarative description (no whitespace, exactly one `@`,
    a non-empty local part, a `.` in the domain with text on both sides).
 */
module Email {

  import opened Wrappers

  /**
    JavaScript's `\s`: the ECMAScript WhiteSpace and LineTerminator code points.
    None of them is `@` or `.`, and all lie in the Basic Multilingual Plane.
   */
  predicate IsSpace(c: char): (r: bool)
    ensures r ==> c != '@' && c != '.'
    ensures r ==> c <= '\U{FFFF}'
  {
    c == '\t' || c == '\n' || c == '\U{B}' || c == '\U{C}' || c == '\r' || c == ' '
    || c == '\U{A0}' || c == '\U{1680}' || ('\U{2000}' <= c <= '\U{200A}')
    || c == '\U{2028}' || c == '\U{2029}' || c == '\U{202F}' || c == '\U{205F}'
    || c == '\U{3000}' || c == '\U{FEFF}'
  }

  /** The character class `[^\s@]`; note that it admits `.`. */
  predicate Plain(c: char) {
    !IsSpace(c) && c != '@'
  }

  predicate AllPlain(s: string) {
    forall t :: 0 <= t < |s| ==> Plain(s[t])
  }

  /** `[^\s@]+` */
  predicate Word(s: string) {
    |s| > 0 && AllPlain(s)
  }

  /** The domain group `[^\s@]+\.[^\s@]+`: some `.` splits `d` into two words. */
  ghost predicate DomainPattern(d: string) {
    exists j :: 0 < j < |d| && d[j] == '.' && Word(d[..j]) && Word(d[j + 1..])
  }

  /** The whole anchored pattern: a word, an `@`, then the domain group. */
  ghost predicate MatchesPattern(s: string) {
    exists i :: 0 < i < |s| && s[i] == '@' && Word(s[..i]) && DomainPattern(s[i + 1..])
  }

  /** The declarative description of an accepted address. */
  ghost predicate EmailShape(s: string) {
    && (forall t :: 0 <= t < |s| ==> !IsSpace(s[t]))
    && exists p :: 0 < p < |s| && s[p] == '@'
         && (forall q :: 0 <= q < |s| && s[q] == '@' ==> q == p)
         && (exists k :: p + 1 < k < |s| - 1 && s[k] == '.')
  }

  /** How far the scan has got through the pattern. */
  datatype Phase =
    | LocalStart   // nothing read yet
    | InLocal      // at least one local character read
    | DomainStart  // the `@` has just been read
    | InDomain     // at least one domain character read, no usable `.` yet
    | AfterDot     // a `.` preceded by a domain character has just been read
    | InTld        // at least one character after such a `.`: accepting

  /** One step of the scan; `None` means no match is possible any more. */
  function Step(p: Phase, c: char): Option<Phase> {
    if IsSpace(c) then None
    else match p
      case LocalStart => if c == '@' then None else Some(InLocal)
      case InLocal => if c == '@' then Some(DomainStart) else Some(InLocal)
      case DomainStart => if c == '@' then None else Some(InDomain)
      case InDomain => if c == '@' then None else if c == '.' then Some(AfterDot) else Some(InDomain)
      case AfterDot => if c == '@' then None else Some(InTld)
      case InTld => if c == '@' then None else Some(InTld)
  }

  /** The phase reached after scanning all of `s` from `p`. */
  function Run(p: Phase, s: string): Option<Phase>
    decreases |s|
  {
    if s == [] then Some(p)
    else match Step(p, s[0])
      case None => None
      case Some(q) => Run(q, s[1..])
  }

  /**
    The e-mail check of the contact form (`emailRegex.test(email)`): it accepts
    exactly the strings of the declarative shape.
   */
  predicate IsValidEmail(s: string): (ok: bool)
    ensures ok <==> EmailShape(s)
  {
    ScanAcceptsShape(s);
    Run(LocalStart, s) == Some(InTld)
  }

  /** `EmailShape` with the least allowed position `m` of the `@` as a parameter (the scan's view of a suffix). */
  ghost predicate ShapeFrom(s: string, m: nat) {
    && (forall t :: 0 <= t < |s| ==> !IsSpace(s[t]))
    && exists p :: m <= p < |s| && s[p] == '@'
         && (forall q :: 0 <= q < |s| && s[q] == '@' ==> q == p)
         && (exists k :: p + 1 < k < |s| - 1 && s[k] == '.')
  }

  /** A `.` in `s` at position `lo` or later that is not the last character. */
  ghost predicate InnerDot(s: string, lo: nat) {
    exists k :: lo <= k < |s| - 1 && s[k] == '.'
  }

  lemma AllPlainUncons(s: string)
    requires |s| > 0
    ensures AllPlain(s) <==> Plain(s[0]) && AllPlain(s[1..])
  {
    if Plain(s[0]) && AllPlain(s[1..]) {
      forall t | 0 < t < |s| ensures Plain(s[t]) {
        assert s[t] == s[1..][t - 1];
      }
    }
  }

  lemma InnerDotUncons(s: string, lo: nat)
    requires |s| > 0
    ensures InnerDot(s, lo + 1) <==> InnerDot(s[1..], lo)
  {
    if InnerDot(s, lo + 1) {
      var k :| lo + 1 <= k < |s| - 1 && s[k] == '.';
      assert s[1..][k - 1] == '.';
    }
    if InnerDot(s[1..], lo) {
      var k :| lo <= k < |s| - 2 && s[1..][k] == '.';
      assert s[k + 1] == '.';
    }
  }

  /** From the accepting phase, the scan succeeds exactly on plain text. */
  lemma {:induction false} TldAccepts(s: string)
    ensures Run(InTld, s) == Some(InTld) <==> AllPlain(s)
    decreases |s|
  {
    if s != [] {
      TldAccepts(s[1..]);
      AllPlainUncons(s);
    }
  }

  lemma AfterDotAccepts(s: string)
    ensures Run(AfterDot, s) == Some(InTld) <==> Word(s)
  {
    if s != [] {
      TldAccepts(s[1..]);
      AllPlainUncons(s);
    }
  }

  /** Inside the domain, the rest must be plain and hold a `.` that is not its last character. */
  lemma {:induction false} InDomainAccepts(s: string)
    ensures Run(InDomain, s) == Some(InTld) <==> AllPlain(s) && InnerDot(s, 0)
    decreases |s|
  {
    if s == [] {
      return;
    }
    AllPlainUncons(s);
    var c, rest := s[0], s[1..];
    if !Plain(c) {
      assert Run(InDomain, s) == None;
    } else if c == '.' {
      AfterDotAccepts(rest);
    } else {
      InDomainAccepts(rest);
      InnerDotUncons(s, 0);
      assert InnerDot(s, 0) ==> InnerDot(s, 1);
    }
  }

  /** Right after the `@`, the rest must be plain and hold a `.` with a character on each side. */
  lemma DomainStartAccepts(s: string)
    ensures Run(DomainStart, s) == Some(InTld) <==> AllPlain(s) && InnerDot(s, 1)
  {
    if s != [] {
      AllPlainUncons(s);
      InDomainAccepts(s[1..]);
      InnerDotUncons(s, 0);
    }
  }

  /** `s` starts with the `@`: the shape holds exactly when the domain after it is well formed. */
  lemma ShapeAtFront(s: string)
    requires |s| > 0 && s[0] == '@'
    ensures ShapeFrom(s, 0) <==> AllPlain(s[1..]) && InnerDot(s[1..], 1)
  {
    var rest := s[1..];
    if ShapeFrom(s, 0) {
      var p :| 0 <= p < |s| && s[p] == '@'
        && (forall q :: 0 <= q < |s| && s[q] == '@' ==> q == p)
        && (exists k :: p + 1 < k < |s| - 1 && s[k] == '.');
      assert p == 0;
      forall t | 0 <= t < |rest| ensures Plain(rest[t]) {
        assert rest[t] == s[t + 1];
      }
      InnerDotUncons(s, 1);
    }
    if AllPlain(rest) && InnerDot(rest, 1) {
      InnerDotUncons(s, 1);
      forall q | 0 < q < |s| ensures s[q] != '@' && !IsSpace(s[q]) {
        assert s[q] == rest[q - 1];
      }
      var k :| 2 <= k < |s| - 1 && s[k] == '.';
    }
  }

  /** `s` starts with a plain character: the shape of `s` is the shape of its tail, shifted by one. */
  lemma ShapeShift(s: string)
    requires |s| > 0 && Plain(s[0])
    ensures ShapeFrom(s, 1) <==> ShapeFrom(s[1..], 0)
  {
    var rest := s[1..];
    if ShapeFrom(s, 1) {
      var p :| 1 <= p < |s| && s[p] == '@'
        && (forall q :: 0 <= q < |s| && s[q] == '@' ==> q == p)
        && (exists k :: p + 1 < k < |s| - 1 && s[k] == '.');
      var k :| p + 1 < k < |s| - 1 && s[k] == '.';
      assert rest[p - 1] == '@' && rest[k - 1] == '.';
      forall q | 0 <= q < |rest| ensures !IsSpace(rest[q]) && (rest[q] == '@' ==> q == p - 1) {
        assert rest[q] == s[q + 1];
      }
    }
    if ShapeFrom(rest, 0) {
      var p :| 0 <= p < |rest| && rest[p] == '@'
        && (forall q :: 0 <= q < |rest| && rest[q] == '@' ==> q == p)
        && (exists k :: p + 1 < k < |rest| - 1 && rest[k] == '.');
      var k :| p + 1 < k < |rest| - 1 && rest[k] == '.';
      assert s[p + 1] == '@' && s[k + 1] == '.';
      forall q | 0 <= q < |s| ensures !IsSpace(s[q]) && (s[q] == '@' ==> q == p + 1) {
        if q > 0 {
          assert s[q] == rest[q - 1];
        }
      }
    }
  }

  /** Inside the local part, the rest must complete the shape with its `@` anywhere. */
  lemma {:induction false} InLocalAccepts(s: string)
    ensures Run(InLocal, s) == Some(InTld) <==> ShapeFrom(s, 0)
    decreases |s|
  {
    if s == [] {
      return;
    }
    var c, rest := s[0], s[1..];
    if IsSpace(c) {
      assert Run(InLocal, s) == None;
    } else if c == '@' {
      DomainStartAccepts(rest);
      ShapeAtFront(s);
    } else {
      InLocalAccepts(rest);
      ShapeShift(s);
      assert ShapeFrom(s, 0) ==> ShapeFrom(s, 1);
    }
  }

  /** The scan from the start accepts exactly the strings of the declarative shape. */
  lemma ScanAcceptsShape(s: string)
    ensures Run(LocalStart, s) == Some(InTld) <==> EmailShape(s)
  {
    if s == [] {
      return;
    }
    if Plain(s[0]) {
      InLocalAccepts(s[1..]);
      ShapeShift(s);
    } else {
      assert Run(LocalStart, s) == None;
    }
    assert EmailShape(s) <==> ShapeFrom(s, 1);
  }

  lemma AllPlainSlice(s: string, a: nat, b: nat)
    requires a <= b <= |s|
    ensures AllPlain(s[a..b]) <==> forall t :: a <= t < b ==> Plain(s[t])
  {
    if AllPlain(s[a..b]) {
      forall t | a <= t < b ensures Plain(s[t]) {
        assert s[t] == s[a..b][t - a];
      }
    }
  }

  /** The domain group matches exactly plain text with a `.` that has a character on each side. */
  lemma DomainPatternIsInnerDot(d: string)
    ensures DomainPattern(d) <==> AllPlain(d) && InnerDot(d, 1)
  {
    if DomainPattern(d) {
      var j :| 0 < j < |d| && d[j] == '.' && Word(d[..j]) && Word(d[j + 1..]);
      AllPlainSlice(d, 0, j);
      AllPlainSlice(d, j + 1, |d|);
    }
    if AllPlain(d) && InnerDot(d, 1) {
      var j :| 1 <= j < |d| - 1 && d[j] == '.';
      AllPlainSlice(d, 0, j);
      AllPlainSlice(d, j + 1, |d|);
    }
  }

  lemma PatternGivesShape(s: string)
    requires MatchesPattern(s)
    ensures EmailShape(s)
  {
    var i :| 0 < i < |s| && s[i] == '@' && Word(s[..i]) && DomainPattern(s[i + 1..]);
    var d := s[i + 1..];
    AllPlainSlice(s, 0, i);
    DomainPatternIsInnerDot(d);
    AllPlainSlice(s, i + 1, |s|);
    var j :| 1 <= j < |d| - 1 && d[j] == '.';
    assert s[i + 1 + j] == '.';
    assert forall t :: 0 <= t < |s| && t != i ==> Plain(s[t]);
  }

  lemma ShapeGivesPattern(s: string)
    requires EmailShape(s)
    ensures MatchesPattern(s)
  {
    var p :| 0 < p < |s| && s[p] == '@'
      && (forall q :: 0 <= q < |s| && s[q] == '@' ==> q == p)
      && (exists k :: p + 1 < k < |s| - 1 && s[k] == '.');
    var k :| p + 1 < k < |s| - 1 && s[k] == '.';
    assert forall t :: 0 <= t < |s| && t != p ==> Plain(s[t]);
    AllPlainSlice(s, 0, p);
    AllPlainSlice(s, p + 1, |s|);
    var d := s[p + 1..];
    assert d[k - p - 1] == '.';
    DomainPatternIsInnerDot(d);
  }

  /** The pattern, read group by group, describes exactly the declarative shape. */
  lemma MatchesPatternIsEmailShape(s: string)
    ensures MatchesPattern(s) <==> EmailShape(s)
  {
    if MatchesPattern(s) {
      PatternGivesShape(s);
    }
    if EmailShape(s) {
      ShapeGivesPattern(s);
    }
  }

  /** The hand-written scan accepts exactly the strings the anchored pattern matches. */
  lemma IsValidEmailMatchesPattern(s: string)
    ensures IsValidEmail(s) <==> MatchesPattern(s)
  {
    MatchesPatternIsEmailShape(s);
  }
}
