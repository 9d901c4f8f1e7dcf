/** The e-mail handling of the signup route (app/api/signup/route.js):
    the normalisation `(body?.email || "").trim().toLowerCase()` and the
    anchored pattern `^[^\s@]+@[^\s@]+\.[^\s@]+$` of `isValidEmail`. */
module Email {

  /** The code points that JavaScript's `\s` class matches and that
      `String.prototype.trim` strips: the WhiteSpace and LineTerminator
      code points of ECMAScript. One predicate serves both uses. */
  predicate IsWhitespace(c: char) {
    || c == '\t' || c == '\n' || c == '\U{000B}' || c == '\U{000C}' || c == '\r'
    || c == ' ' || c == '\U{00A0}' || c == '\U{1680}'
    || ('\U{2000}' <= c <= '\U{200A}')
    || c == '\U{2028}' || c == '\U{2029}' || c == '\U{202F}' || c == '\U{205F}'
    || c == '\U{3000}' || c == '\U{FEFF}'
  }

  ghost predicate AllWhitespace(s: string) {
    forall i :: 0 <= i < |s| ==> IsWhitespace(s[i])
  }

  ghost predicate NoWhitespace(s: string) {
    forall i :: 0 <= i < |s| ==> !IsWhitespace(s[i])
  }

  /** Neither end of `s` is whitespace: what `trim` produces. */
  predicate IsTrimmed(s: string) {
    s == [] || (!IsWhitespace(s[0]) && !IsWhitespace(s[|s| - 1]))
  }

  /** `r` is the slice `s[a..b]` and everything around it is whitespace. */
  ghost predicate PadSplit(s: string, r: string, a: int, b: int) {
    0 <= a <= b <= |s| && r == s[a..b] && AllWhitespace(s[..a]) && AllWhitespace(s[b..])
  }

  /** `s` is `r` with whitespace-only padding on both sides. */
  ghost predicate PaddedBy(s: string, r: string) {
    exists a, b :: PadSplit(s, r, a, b)
  }

  function TrimStart(s: string): (r: string)
    ensures |r| <= |s| && r == s[|s| - |r|..]
    ensures AllWhitespace(s[..|s| - |r|])
    ensures r == [] || !IsWhitespace(r[0])
  {
    if |s| > 0 && IsWhitespace(s[0]) then
      var t := s[1..];
      var r := TrimStart(t);
      assert r == s[|s| - |r|..] by {
        assert t[|t| - |r|..] == s[|s| - |r|..];
      }
      assert s[..|s| - |r|] == [s[0]] + t[..|t| - |r|];
      r
    else
      s
  }

  function TrimEnd(s: string): (r: string)
    ensures |r| <= |s| && r == s[..|r|]
    ensures AllWhitespace(s[|r|..])
    ensures r == [] || !IsWhitespace(r[|r| - 1])
  {
    if |s| > 0 && IsWhitespace(s[|s| - 1]) then
      var r := TrimEnd(s[..|s| - 1]);
      assert s[|r|..] == s[..|s| - 1][|r|..] + [s[|s| - 1]];
      r
    else
      s
  }

  /** `String.prototype.trim`. */
  function Trim(s: string): (r: string)
    ensures IsTrimmed(r)
    ensures |r| <= |s|
  {
    var t := TrimStart(s);
    var r := TrimEnd(t);
    assert IsTrimmed(r) by {
      if r != [] {
        assert r[0] == t[0];
      }
    }
    r
  }

  /** Trimming removes only whitespace, and only from the two ends. */
  lemma TrimPads(s: string)
    ensures PaddedBy(s, Trim(s))
  {
    var t := TrimStart(s);
    var r := TrimEnd(t);
    var a := |s| - |t|;
    assert r == s[a..a + |r|];
    assert s[a + |r|..] == t[|r|..];
    assert PadSplit(s, r, a, a + |r|);
  }

  /** Whitespace padding is determined by what it pads: any trimmed `r` that
      `s` is a padding of is `Trim(s)`. */
  lemma TrimUnique(s: string, r: string)
    requires IsTrimmed(r) && PaddedBy(s, r)
    ensures Trim(s) == r
  {
    var a, b :| PadSplit(s, r, a, b);
    TrimPads(s);
    var a', b' :| PadSplit(s, Trim(s), a', b');
    PaddingBounds(s, r, a, b, Trim(s), a', b');
  }

  /** A trimmed non-empty slice padded by whitespace starts and ends with a
      non-whitespace character, and everything outside it is whitespace. */
  lemma SolidSpan(s: string, a: int, b: int)
    requires 0 <= a < b <= |s| && IsTrimmed(s[a..b])
    requires AllWhitespace(s[..a]) && AllWhitespace(s[b..])
    ensures !IsWhitespace(s[a]) && !IsWhitespace(s[b - 1])
    ensures forall k :: 0 <= k < a ==> IsWhitespace(s[k])
    ensures forall k :: b <= k < |s| ==> IsWhitespace(s[k])
  {
    assert s[a..b][0] == s[a];
    assert s[a..b][b - a - 1] == s[b - 1];
    forall k | 0 <= k < a
      ensures IsWhitespace(s[k])
    {
      assert s[..a][k] == s[k];
    }
    forall k | b <= k < |s|
      ensures IsWhitespace(s[k])
    {
      assert s[b..][k - b] == s[k];
    }
  }

  /** An empty slice padded by whitespace on both sides means `s` is all
      whitespace. */
  lemma HollowSpan(s: string, a: int)
    requires 0 <= a <= |s| && AllWhitespace(s[..a]) && AllWhitespace(s[a..])
    ensures AllWhitespace(s)
  {
    forall k | 0 <= k < |s|
      ensures IsWhitespace(s[k])
    {
      if k < a {
        assert s[..a][k] == s[k];
      } else {
        assert s[a..][k - a] == s[k];
      }
    }
  }

  /** Helper of TrimUnique: two trimmed slices padded by whitespace coincide. */
  lemma PaddingBounds(s: string, r: string, a: int, b: int, r': string, a': int, b': int)
    requires PadSplit(s, r, a, b) && IsTrimmed(r)
    requires PadSplit(s, r', a', b') && IsTrimmed(r')
    ensures r == r'
  {
    if a < b {
      SolidSpan(s, a, b);
      if a' == b' {
        HollowSpan(s, a');
        assert false;
      }
      SolidSpan(s, a', b');
    } else if a' < b' {
      SolidSpan(s, a', b');
      HollowSpan(s, a);
      assert false;
    }
  }

  /** Trimming is idempotent. */
  lemma TrimIdempotent(s: string)
    ensures Trim(Trim(s)) == Trim(s)
  {
    var r := Trim(s);
    assert r == r[0..|r|] && r[..0] == [] && r[|r|..] == [];
    assert PadSplit(r, r, 0, |r|);
    TrimUnique(r, r);
  }

  predicate IsUpper(c: char) {
    'A' <= c <= 'Z'
  }

  /** The `k`-th letter of the Latin alphabet, capital and small. */
  function Capital(k: int): char
    requires 0 <= k < 26
  {
    ('A' as int + k) as char
  }

  function Small(k: int): char
    requires 0 <= k < 26
  {
    ('a' as int + k) as char
  }

  /** `a` is the `k`-th capital letter and `b` the `k`-th small letter. */
  ghost predicate LetterPair(a: char, b: char, k: int) {
    0 <= k < 26 && a == Capital(k) && b == Small(k)
  }

  /** `b` is the small letter of the capital `a`. */
  ghost predicate CaseVariant(a: char, b: char) {
    exists k :: LetterPair(a, b, k)
  }

  /** `a` and `b` are the same character up to ASCII case. */
  ghost predicate SameLetter(a: char, b: char) {
    a == b || CaseVariant(a, b) || CaseVariant(b, a)
  }

  /** ASCII case folding of one character. */
  function LowerChar(c: char): (r: char)
    ensures !IsUpper(r)
    ensures IsUpper(c) ==> CaseVariant(c, r)
    ensures IsWhitespace(r) <==> IsWhitespace(c)
    ensures r == '@' <==> c == '@'
    ensures r == '.' <==> c == '.'
    ensures !IsUpper(c) ==> r == c
  {
    if IsUpper(c) then
      var r := (c as int + 32) as char;
      assert LetterPair(c, r, c as int - 'A' as int);
      r
    else
      c
  }

  /** Two characters fold to the same character exactly when they are the
      same letter up to case. */
  lemma LowerCharSame(a: char, b: char)
    ensures LowerChar(a) == LowerChar(b) <==> SameLetter(a, b)
  {
    if CaseVariant(a, b) {
      var k :| LetterPair(a, b, k);
      assert LowerChar(a) == b;
    }
    if CaseVariant(b, a) {
      var k :| LetterPair(b, a, k);
      assert LowerChar(b) == a;
    }
    if LowerChar(a) == LowerChar(b) && a != b {
      if IsUpper(a) && !IsUpper(b) {
        assert LetterPair(a, b, a as int - 'A' as int);
      }
      if IsUpper(b) && !IsUpper(a) {
        assert LetterPair(b, a, b as int - 'A' as int);
      }
    }
  }

  /** Case-insensitive equality keeps whitespace where it is. */
  lemma SameLetterWhitespace(a: char, b: char)
    requires SameLetter(a, b)
    ensures IsWhitespace(a) <==> IsWhitespace(b)
  {
    LowerCharSame(a, b);
  }

  /** `String.prototype.toLowerCase`, restricted to ASCII letters. */
  function ToLower(s: string): (r: string)
    ensures |r| == |s|
    ensures forall i :: 0 <= i < |s| ==> r[i] == LowerChar(s[i])
  {
    seq(|s|, i requires 0 <= i < |s| => LowerChar(s[i]))
  }

  /** Two strings lower-case alike exactly when they have the same length
      and agree letter by letter up to ASCII case. */
  lemma ToLowerSame(s1: string, s2: string)
    ensures ToLower(s1) == ToLower(s2) <==>
      |s1| == |s2| && forall i :: 0 <= i < |s1| ==> SameLetter(s1[i], s2[i])
  {
    if ToLower(s1) == ToLower(s2) {
      forall i | 0 <= i < |s1|
        ensures SameLetter(s1[i], s2[i])
      {
        assert ToLower(s1)[i] == ToLower(s2)[i];
        LowerCharSame(s1[i], s2[i]);
      }
    }
    if |s1| == |s2| && forall i :: 0 <= i < |s1| ==> SameLetter(s1[i], s2[i]) {
      forall i | 0 <= i < |s1|
        ensures ToLower(s1)[i] == ToLower(s2)[i]
      {
        LowerCharSame(s1[i], s2[i]);
      }
      assert ToLower(s1) == ToLower(s2);
    }
  }

  ghost predicate NoUpper(s: string) {
    forall i :: 0 <= i < |s| ==> !IsUpper(s[i])
  }

  /** The normalisation of route.js line 13 applied to a string field. */
  function Normalize(s: string): (r: string)
    ensures IsTrimmed(r) && NoUpper(r)
    ensures |r| <= |s|
  {
    var t := Trim(s);
    var r := ToLower(t);
    assert IsTrimmed(r) by {
      if r != [] {
        assert r[0] == LowerChar(t[0]);
        assert r[|r| - 1] == LowerChar(t[|t| - 1]);
      }
    }
    r
  }

  /** Normalising lower-cases what is left after whitespace is stripped from
      both ends, and nothing else. */
  lemma NormalizeStripsAndFolds(s: string)
    ensures exists r :: PaddedBy(s, r) && IsTrimmed(r) && Normalize(s) == ToLower(r)
  {
    TrimPads(s);
    var r := Trim(s);
    assert PaddedBy(s, r) && IsTrimmed(r) && Normalize(s) == ToLower(r);
  }

  /** Two fields normalise alike exactly when their trimmed cores agree
      letter by letter up to ASCII case. */
  lemma NormalizeSame(s1: string, s2: string)
    ensures Normalize(s1) == Normalize(s2) <==>
      |Trim(s1)| == |Trim(s2)| && forall i :: 0 <= i < |Trim(s1)| ==> SameLetter(Trim(s1)[i], Trim(s2)[i])
  {
    ToLowerSame(Trim(s1), Trim(s2));
  }

  /** Two fields that pad case variants of one trimmed core with any
      whitespace normalise to the same address. */
  lemma PaddedCaseVariants(s1: string, s2: string, c1: string, c2: string)
    requires PaddedBy(s1, c1) && PaddedBy(s2, c2) && IsTrimmed(c1)
    requires |c1| == |c2| && forall i :: 0 <= i < |c1| ==> SameLetter(c1[i], c2[i])
    ensures Normalize(s1) == Normalize(s2)
  {
    if c2 != [] {
      SameLetterWhitespace(c1[0], c2[0]);
      SameLetterWhitespace(c1[|c1| - 1], c2[|c2| - 1]);
    }
    TrimUnique(s1, c1);
    TrimUnique(s2, c2);
    ToLowerSame(c1, c2);
  }

  /** Normalising an already normalised string changes nothing. */
  lemma NormalizedIsFixed(s: string)
    requires IsTrimmed(s) && NoUpper(s)
    ensures Normalize(s) == s
  {
    assert s == s[0..|s|] && s[..0] == [] && s[|s|..] == [];
    assert PadSplit(s, s, 0, |s|);
    TrimUnique(s, s);
    assert ToLower(s) == s;
  }

  /** Normalising twice equals normalising once. */
  lemma NormalizeIdempotent(s: string)
    ensures Normalize(Normalize(s)) == Normalize(s)
  {
    NormalizedIsFixed(Normalize(s));
  }

  /** A character the pattern's class `[^\s@]` admits. */
  predicate IsAddressChar(c: char) {
    !IsWhitespace(c) && c != '@'
  }

  ghost predicate AllAddressChars(s: string) {
    forall i :: 0 <= i < |s| ==> IsAddressChar(s[i])
  }

  lemma AllAddressCharsCons(s: string)
    requires |s| > 0
    ensures AllAddressChars(s) <==> IsAddressChar(s[0]) && AllAddressChars(s[1..])
  {
    if IsAddressChar(s[0]) && AllAddressChars(s[1..]) {
      forall m | 0 <= m < |s|
        ensures IsAddressChar(s[m])
      {
        if m > 0 {
          assert s[m] == s[1..][m - 1];
        }
      }
    }
  }

  /** The three runs of `[^\s@]+` of the pattern are `s[..i]`, `s[i+1..j]`
      and `s[j+1..]`, with the `@` at `i` and the dot at `j`. */
  ghost predicate PatternSplit(s: string, i: int, j: int) {
    && 0 < i && i + 1 < j && j + 1 < |s|
    && s[i] == '@' && s[j] == '.'
    && AllAddressChars(s[..i]) && AllAddressChars(s[i + 1..j]) && AllAddressChars(s[j + 1..])
  }

  /** The anchored pattern `^[^\s@]+@[^\s@]+\.[^\s@]+$` read literally. */
  ghost predicate MatchesPattern(s: string) {
    exists i, j :: PatternSplit(s, i, j)
  }

  ghost predicate InnerDot(d: string, k: int) {
    0 < k < |d| - 1 && d[k] == '.'
  }

  /** `d` holds a dot that is neither its first nor its last character. */
  ghost predicate HasInnerDot(d: string) {
    exists k :: InnerDot(d, k)
  }

  /** `s[i]` is the only `@` of `s`, something precedes it and the part after
      it has an inner dot. */
  ghost predicate AtSplit(s: string, i: int) {
    && 0 < i < |s| && s[i] == '@'
    && (forall k :: 0 <= k < |s| && s[k] == '@' ==> k == i)
    && HasInnerDot(s[i + 1..])
  }

  /** The plain-words reading of the pattern: no whitespace, exactly one `@`
      with something before it, and a dot inside the part after it. */
  ghost predicate WellFormedAddress(s: string) {
    NoWhitespace(s) && exists i :: AtSplit(s, i)
  }

  /** The pattern, read literally, says the same as its plain-words reading. */
  lemma PatternIsWellFormed(s: string)
    ensures MatchesPattern(s) <==> WellFormedAddress(s)
  {
    if MatchesPattern(s) {
      var i, j :| PatternSplit(s, i, j);
      PatternImpliesWellFormed(s, i, j);
    }
    if WellFormedAddress(s) {
      var i :| AtSplit(s, i);
      WellFormedImpliesPattern(s, i);
    }
  }

  lemma PatternImpliesWellFormed(s: string, i: int, j: int)
    requires PatternSplit(s, i, j)
    ensures WellFormedAddress(s)
  {
    forall k | 0 <= k < |s|
      ensures IsAddressChar(s[k]) || k == i
    {
      if k < i {
        assert s[..i][k] == s[k];
      } else if i < k < j {
        assert s[i + 1..j][k - i - 1] == s[k];
      } else if j < k {
        assert s[j + 1..][k - j - 1] == s[k];
      }
    }
    assert InnerDot(s[i + 1..], j - i - 1);
    assert AtSplit(s, i);
  }

  /** Any three non-empty runs of address characters joined by an `@` and a
      dot form a well-formed address. */
  lemma AssembledIsWellFormed(local: string, host: string, suffix: string)
    requires |local| > 0 && |host| > 0 && |suffix| > 0
    requires AllAddressChars(local) && AllAddressChars(host) && AllAddressChars(suffix)
    ensures WellFormedAddress(local + "@" + host + "." + suffix)
  {
    var s := local + "@" + host + "." + suffix;
    var i, j := |local|, |local| + 1 + |host|;
    assert s[..i] == local;
    assert s[i + 1..j] == host;
    assert s[j + 1..] == suffix;
    assert s[i] == '@' && s[j] == '.';
    PatternImpliesWellFormed(s, i, j);
  }

  lemma WellFormedImpliesPattern(s: string, i: int)
    requires NoWhitespace(s) && AtSplit(s, i)
    ensures MatchesPattern(s)
  {
    var k :| InnerDot(s[i + 1..], k);
    var j := i + 1 + k;
    assert s[j] == '.';
    var local, host, suffix := s[..i], s[i + 1..j], s[j + 1..];
    forall m | 0 <= m < |local|
      ensures IsAddressChar(local[m])
    {
      assert local[m] == s[m];
    }
    forall m | 0 <= m < |host|
      ensures IsAddressChar(host[m])
    {
      assert host[m] == s[i + 1 + m];
    }
    forall m | 0 <= m < |suffix|
      ensures IsAddressChar(suffix[m])
    {
      assert suffix[m] == s[j + 1 + m];
    }
    assert PatternSplit(s, i, j);
  }

  /** A string without an `@`, or without a dot, is not an address. */
  lemma MissingAtOrDot(s: string)
    requires '@' !in s || '.' !in s
    ensures !WellFormedAddress(s)
  {
  }

  /** Where a left-to-right scan of the pattern stands after a prefix. */
  datatype Phase =
    | LocalStart   // nothing read yet
    | Local        // one or more local-part characters read
    | DomainStart  // the `@` has just been read
    | Domain       // domain characters read, no usable dot yet
    | AfterDot     // a dot after at least one domain character
    | Suffix       // at least one character after that dot: accepting
    | Rejected

  function Step(q: Phase, c: char): Phase {
    if !IsAddressChar(c) then
      if q == Local && c == '@' then DomainStart else Rejected
    else
      match q
      case LocalStart => Local
      case Local => Local
      case DomainStart => Domain
      case Domain => if c == '.' then AfterDot else Domain
      case AfterDot => Suffix
      case Suffix => Suffix
      case Rejected => Rejected
  }

  function Run(q: Phase, s: string): Phase
    decreases |s|
  {
    if s == [] then q else Run(Step(q, s[0]), s[1..])
  }

  /** `isValidEmail` on a string: the pattern, decided by one scan. The
      `typeof email === "string"` test always holds here, since the route
      only ever passes it the normalised string. */
  function IsValidEmail(s: string): (r: bool)
    ensures r <==> WellFormedAddress(s)
  {
    IsValidEmailMatchesPattern(s);
    PatternIsWellFormed(s);
    Run(LocalStart, s) == Suffix
  }

  ghost predicate DotBeforeLast(s: string, k: int) {
    0 <= k < |s| - 1 && s[k] == '.'
  }

  /** What remains to be read from `Domain`: address characters with a dot
      that is followed by at least one more character. */
  ghost predicate DomainRest(s: string) {
    AllAddressChars(s) && exists k :: DotBeforeLast(s, k)
  }

  /** `s[i]` is the `@` that ends the local part, when reading from `Local`. */
  ghost predicate LocalSplit(s: string, i: int) {
    && 0 <= i < |s| - 1 && s[i] == '@' && AllAddressChars(s[..i])
    && IsAddressChar(s[i + 1]) && DomainRest(s[i + 2..])
  }

  /** What remains to be read from `Local`. */
  ghost predicate LocalRest(s: string) {
    exists i :: LocalSplit(s, i)
  }

  lemma RejectedStays(s: string)
    ensures Run(Rejected, s) == Rejected
  {
  }

  lemma {:induction false} SuffixAccepts(s: string)
    ensures Run(Suffix, s) == Suffix <==> AllAddressChars(s)
  {
    if s != [] {
      AllAddressCharsCons(s);
      if IsAddressChar(s[0]) {
        SuffixAccepts(s[1..]);
      } else {
        RejectedStays(s[1..]);
      }
    }
  }

  lemma {:induction false} DomainAccepts(s: string)
    ensures Run(Domain, s) == Suffix <==> DomainRest(s)
  {
    if s == [] {
      return;
    }
    var t := s[1..];
    AllAddressCharsCons(s);
    if !IsAddressChar(s[0]) {
      RejectedStays(t);
    } else if s[0] == '.' {
      if t != [] {
        AllAddressCharsCons(t);
        if IsAddressChar(t[0]) {
          SuffixAccepts(t[1..]);
          assert DotBeforeLast(s, 0);
        } else {
          RejectedStays(t[1..]);
        }
      }
    } else {
      DomainAccepts(t);
      DomainShift(s);
    }
  }

  /** Helper of DomainAccepts: a character other than a dot moves the dot
      one place along. */
  lemma DomainShift(s: string)
    requires |s| > 0 && s[0] != '.'
    ensures (exists k :: DotBeforeLast(s, k)) <==> (exists k :: DotBeforeLast(s[1..], k))
  {
    var t := s[1..];
    if exists k :: DotBeforeLast(t, k) {
      var k :| DotBeforeLast(t, k);
      assert DotBeforeLast(s, k + 1);
    }
    if exists k :: DotBeforeLast(s, k) {
      var k :| DotBeforeLast(s, k);
      assert DotBeforeLast(t, k - 1);
    }
  }

  lemma {:induction false} LocalAccepts(s: string)
    ensures Run(Local, s) == Suffix <==> LocalRest(s)
  {
    if s == [] {
      return;
    }
    var t := s[1..];
    if s[0] == '@' {
      LocalAtSign(s);
      if |t| > 0 {
        if IsAddressChar(t[0]) {
          DomainAccepts(t[1..]);
        } else {
          RejectedStays(t[1..]);
        }
      }
    } else if !IsAddressChar(s[0]) {
      RejectedStays(t);
      LocalNeedsAddressChar(s);
    } else {
      LocalAccepts(t);
      LocalShift(s);
    }
  }

  /** Helper of LocalAccepts: from `Local`, an `@` must begin the domain. */
  lemma LocalAtSign(s: string)
    requires |s| > 0 && s[0] == '@'
    ensures LocalRest(s) <==> |s| > 1 && IsAddressChar(s[1]) && DomainRest(s[2..])
  {
    if LocalRest(s) {
      var i :| LocalSplit(s, i);
    }
    if |s| > 1 && IsAddressChar(s[1]) && DomainRest(s[2..]) {
      assert s[..0] == [];
      assert LocalSplit(s, 0);
    }
  }

  /** Helper of LocalAccepts: a whitespace character cannot be read in `Local`. */
  lemma LocalNeedsAddressChar(s: string)
    requires |s| > 0 && !IsAddressChar(s[0]) && s[0] != '@'
    ensures !LocalRest(s)
  {
    forall i | 0 <= i < |s|
      ensures !LocalSplit(s, i)
    {
      assert i > 0 ==> s[..i][0] == s[0];
    }
  }

  /** Helper of LocalAccepts: an address character in `Local` leaves the
      remainder's shape unchanged. */
  lemma LocalShift(s: string)
    requires |s| > 0 && IsAddressChar(s[0])
    ensures LocalRest(s) <==> LocalRest(s[1..])
  {
    var t := s[1..];
    if LocalRest(t) {
      var i :| LocalSplit(t, i);
      LocalShiftRight(s, i);
    }
    if LocalRest(s) {
      var i :| LocalSplit(s, i);
      LocalShiftLeft(s, i);
    }
  }

  lemma LocalShiftRight(s: string, i: int)
    requires |s| > 0 && IsAddressChar(s[0]) && LocalSplit(s[1..], i)
    ensures LocalSplit(s, i + 1)
  {
    var t := s[1..];
    assert s[i + 1 + 2..] == t[i + 2..];
    var local, local' := s[..i + 1], t[..i];
    forall m | 0 <= m < |local|
      ensures IsAddressChar(local[m])
    {
      if m > 0 {
        assert local[m] == local'[m - 1];
      }
    }
  }

  lemma LocalShiftLeft(s: string, i: int)
    requires |s| > 0 && IsAddressChar(s[0]) && LocalSplit(s, i)
    ensures i > 0 && LocalSplit(s[1..], i - 1)
  {
    var t := s[1..];
    assert t[i - 1 + 2..] == s[i + 2..];
    var local, local' := t[..i - 1], s[..i];
    forall m | 0 <= m < |local|
      ensures IsAddressChar(local[m])
    {
      assert local[m] == local'[m + 1];
    }
  }

  /** The scan accepts exactly the strings the pattern matches. */
  lemma IsValidEmailMatchesPattern(s: string)
    ensures Run(LocalStart, s) == Suffix <==> MatchesPattern(s)
  {
    if s == [] {
      return;
    }
    var t := s[1..];
    if !IsAddressChar(s[0]) {
      RejectedStays(t);
      PatternNeedsAddressChar(s);
      return;
    }
    LocalAccepts(t);
    if MatchesPattern(s) {
      var i, j :| PatternSplit(s, i, j);
      PatternToRest(s, i, j);
    }
    if LocalRest(t) {
      var i :| LocalSplit(t, i);
      RestToPattern(s, i);
    }
  }

  /** Helper of IsValidEmailMatchesPattern: the pattern begins with an
      address character. */
  lemma PatternNeedsAddressChar(s: string)
    requires |s| > 0 && !IsAddressChar(s[0])
    ensures !MatchesPattern(s)
  {
  }

  /** Helper of IsValidEmailMatchesPattern: the pattern's split read as the
      scan's remainder after the first character. */
  lemma PatternToRest(s: string, i: int, j: int)
    requires PatternSplit(s, i, j)
    ensures LocalSplit(s[1..], i - 1)
  {
    var t := s[1..];
    var host, suffix := s[i + 1..j], s[j + 1..];
    assert IsAddressChar(host[0]);
    var d := t[i + 1..];
    assert d == s[i + 2..];
    forall m | 0 <= m < |d|
      ensures IsAddressChar(d[m])
    {
      if i + 2 + m < j {
        assert d[m] == host[m + 1];
      } else if i + 2 + m > j {
        assert d[m] == suffix[i + 2 + m - j - 1];
      }
    }
    assert DotBeforeLast(d, j - i - 2);
    var local, local' := t[..i - 1], s[..i];
    forall m | 0 <= m < |local|
      ensures IsAddressChar(local[m])
    {
      assert local[m] == local'[m + 1];
    }
    assert t[i - 1] == '@';
    assert t[i - 1 + 2..] == d;
  }

  /** Helper of IsValidEmailMatchesPattern: the scan's remainder after the
      first character, read back as the pattern's split. */
  lemma RestToPattern(s: string, i: int)
    requires |s| > 0 && IsAddressChar(s[0]) && LocalSplit(s[1..], i)
    ensures MatchesPattern(s)
  {
    var t := s[1..];
    var d := s[i + 3..];
    assert d == t[i + 2..];
    var k :| DotBeforeLast(d, k);
    var j := i + 3 + k;
    assert s[j] == '.';
    var local, host, suffix := s[..i + 1], s[i + 2..j], s[j + 1..];
    var local' := t[..i];
    forall m | 0 <= m < |local|
      ensures IsAddressChar(local[m])
    {
      if m > 0 {
        assert local[m] == local'[m - 1];
      }
    }
    forall m | 0 <= m < |host|
      ensures IsAddressChar(host[m])
    {
      if m > 0 {
        assert host[m] == d[m - 1];
      }
    }
    forall m | 0 <= m < |suffix|
      ensures IsAddressChar(suffix[m])
    {
      assert suffix[m] == d[k + 1 + m];
    }
    assert PatternSplit(s, i + 1, j);
  }
}
