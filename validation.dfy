/** The three form validators (src/utils/validation.ts), each written as an
    explicit character-level recogniser and characterised by a lemma that
    says exactly which strings it accepts. */
module Validation {
  import opened Text

  // ---------------------------------------------------------------------
  // isNonEmpty: `str.trim().length > 0`

  /** `trimStart()`: drop leading whitespace. */
  function TrimStart(s: string): (r: string)
    ensures |r| <= |s| && r == s[|s| - |r|..]
    ensures forall i :: 0 <= i < |s| - |r| ==> IsWhitespace(s[i])
    ensures r == [] || !IsWhitespace(r[0])
  {
    if s != [] && IsWhitespace(s[0]) then TrimStart(s[1..]) else s
  }

  /** `trimEnd()`: drop trailing whitespace. */
  function TrimEnd(s: string): (r: string)
    ensures |r| <= |s| && r == s[..|r|]
    ensures forall i :: |r| <= i < |s| ==> IsWhitespace(s[i])
    ensures r == [] || !IsWhitespace(r[|r| - 1])
  {
    if s != [] && IsWhitespace(s[|s| - 1]) then TrimEnd(s[..|s| - 1]) else s
  }

  /** `trim()`: the result is the piece of `s` left between a whitespace-only
      prefix and a whitespace-only suffix, and it neither starts nor ends with
      whitespace; it is empty exactly when `s` is all whitespace. */
  function Trim(s: string): (r: string)
    ensures exists a :: OccursAt(s, r, a) && WhitespaceOutside(s, a, a + |r|)
    ensures r == [] || (!IsWhitespace(r[0]) && !IsWhitespace(r[|r| - 1]))
    ensures r == [] <==> forall i :: 0 <= i < |s| ==> IsWhitespace(s[i])
  {
    TrimSpan(s);
    TrimEmptyIff(s);
    TrimEnd(TrimStart(s))
  }

  /** Every character of `s` before `lo` or from `hi` on is whitespace. */
  predicate WhitespaceOutside(s: string, lo: int, hi: int) {
    (forall i :: 0 <= i < lo && i < |s| ==> IsWhitespace(s[i]))
    && (forall i :: 0 <= hi <= i < |s| ==> IsWhitespace(s[i]))
  }

  /** Trimming keeps a contiguous piece of the input and drops only whitespace. */
  lemma TrimSpan(s: string)
    ensures OccursAt(s, TrimEnd(TrimStart(s)), |s| - |TrimStart(s)|)
    ensures WhitespaceOutside(s, |s| - |TrimStart(s)|, |s| - |TrimStart(s)| + |TrimEnd(TrimStart(s))|)
  {
    var t := TrimStart(s);
    var r := TrimEnd(t);
    PrefixOfSuffix(s, |s| - |t|, t, r);
  }

  /** A prefix `r` of the suffix `t` of `s` that starts at `a` occurs in `s` at
      `a`; whitespace outside `r` within `t`, and before `a` in `s`, is
      whitespace of `s` outside the span. */
  lemma PrefixOfSuffix(s: string, a: int, t: string, r: string)
    requires 0 <= a <= |s| && t == s[a..]
    requires |r| <= |t| && r == t[..|r|]
    requires forall i :: 0 <= i < a ==> IsWhitespace(s[i])
    requires forall i :: |r| <= i < |t| ==> IsWhitespace(t[i])
    ensures OccursAt(s, r, a)
    ensures WhitespaceOutside(s, a, a + |r|)
  {
    assert s[a..a + |r|] == r;
    forall i | a + |r| <= i < |s| ensures IsWhitespace(s[i]) {
      assert s[i] == t[i - a];
    }
  }

  /** Trimming leaves nothing exactly when every character is whitespace. */
  lemma {:induction false} TrimEmptyIff(s: string)
    ensures TrimEnd(TrimStart(s)) == [] <==> forall i :: 0 <= i < |s| ==> IsWhitespace(s[i])
  {
    var t := TrimStart(s);
    if exists i :: 0 <= i < |s| && !IsWhitespace(s[i]) {
      assert t != [];
      assert |TrimEnd(t)| > 0;
    }
    if TrimEnd(t) != [] {
      var r := TrimEnd(t);
      assert r[0] == t[0];
      assert t[0] == s[|s| - |t|];
    }
  }

  /** `isNonEmpty`: holds exactly when one of the characters is not whitespace. */
  predicate IsNonEmpty(s: string)
    ensures IsNonEmpty(s) <==> exists i :: 0 <= i < |s| && !IsWhitespace(s[i])
  {
    |Trim(s)| > 0
  }

  // ---------------------------------------------------------------------
  // isValidEmail: /^[^\s@]+@[^\s@]+\.[^\s@]+$/

  /** A character of the class `[^\s@]`. */
  predicate IsPlain(c: char) {
    !IsWhitespace(c) && c != '@'
  }

  predicate AllPlain(s: string) {
    forall j :: 0 <= j < |s| ==> IsPlain(s[j])
  }

  /** The states of a deterministic automaton for the email pattern. `Local`:
      inside the part before `@`; `AfterAt`: just read `@`; `Domain`: at least
      one domain character read, no usable dot yet; `Dot`: just read a dot that
      can end the first domain part; `Tld`: a complete `X.Y` domain has been
      read (the only accepting state); `Dead`: no continuation matches. */
  datatype EmailState = Start | Local | AfterAt | Domain | Dot | Tld | Dead

  function EmailStep(st: EmailState, c: char): EmailState {
    if IsWhitespace(c) then Dead
    else match st
      case Start => if c == '@' then Dead else Local
      case Local => if c == '@' then AfterAt else Local
      case AfterAt => if c == '@' then Dead else Domain
      case Domain => if c == '@' then Dead else if c == '.' then Dot else Domain
      case Dot => if c == '@' then Dead else Tld
      case Tld => if c == '@' then Dead else Tld
      case Dead => Dead
  }

  /** The state reached after reading all of `s` from `st`. */
  function EmailRun(st: EmailState, s: string): EmailState
    decreases |s|
  {
    if s == [] then st else EmailRun(EmailStep(st, s[0]), s[1..])
  }

  /** `isValidEmail`: the automaton ends in its accepting state. It accepts
      exactly the strings of the email shape. */
  predicate IsValidEmail(s: string)
    ensures IsValidEmail(s) <==> EmailShape(s)
  {
    EmailIff(s);
    EmailRun(Start, s) == Tld
  }

  /** Whether `s` splits at an `@` at `i` and a dot at `k`, with X and Y of
      X `.` Y non-empty and every character other than the `@` drawn from
      `[^\s@]`; the part before the `@` may be empty. */
  predicate LocalRest(s: string, i: int, k: int) {
    && 0 <= i && i + 1 < k && k + 1 < |s|
    && s[i] == '@' && s[k] == '.'
    && forall j :: 0 <= j < |s| && j != i ==> IsPlain(s[j])
  }

  /** Whether `s` splits as local `@` X `.` Y with the local part, X and Y all
      non-empty. */
  predicate EmailSplitsAt(s: string, i: int, k: int) {
    0 < i && LocalRest(s, i, k)
  }

  /** The shape of an email address the pattern describes. */
  ghost predicate EmailShape(s: string) {
    exists i, k :: EmailSplitsAt(s, i, k)
  }

  lemma {:induction false} DeadStays(s: string)
    ensures EmailRun(Dead, s) == Dead
    decreases |s|
  {
    if s != [] {
      DeadStays(s[1..]);
    }
  }

  lemma {:induction false} TldAccepts(s: string)
    ensures EmailRun(Tld, s) == Tld <==> AllPlain(s)
    decreases |s|
  {
    if s != [] {
      if IsPlain(s[0]) {
        TldAccepts(s[1..]);
        assert AllPlain(s) <==> AllPlain(s[1..]) by {
          assert forall j :: 1 <= j < |s| ==> s[j] == s[1..][j - 1];
        }
      } else {
        DeadStays(s[1..]);
      }
    }
  }

  lemma DotAccepts(s: string)
    ensures EmailRun(Dot, s) == Tld <==> |s| >= 1 && AllPlain(s)
  {
    if s != [] {
      if IsPlain(s[0]) {
        TldAccepts(s[1..]);
        assert AllPlain(s) <==> AllPlain(s[1..]) by {
          assert forall j :: 1 <= j < |s| ==> s[j] == s[1..][j - 1];
        }
      } else {
        DeadStays(s[1..]);
      }
    }
  }

  /** A dot that still has at least one character after it, at `lo` or later. */
  predicate DotBeforeEnd(s: string, lo: int) {
    exists k :: 0 <= lo <= k && k + 1 < |s| && s[k] == '.'
  }

  lemma {:induction false} DomainAccepts(s: string)
    ensures EmailRun(Domain, s) == Tld <==> AllPlain(s) && DotBeforeEnd(s, 0)
    decreases |s|
  {
    if s != [] {
      var t := s[1..];
      assert forall j :: 1 <= j < |s| ==> s[j] == t[j - 1];
      if !IsPlain(s[0]) {
        DeadStays(t);
      } else if s[0] == '.' {
        DotAccepts(t);
        if |t| >= 1 {
          assert s[0] == '.' && 0 + 1 < |s|;
        }
      } else {
        DomainAccepts(t);
        if DotBeforeEnd(t, 0) {
          var k :| 0 <= k && k + 1 < |t| && t[k] == '.';
          assert s[k + 1] == '.';
        }
        if DotBeforeEnd(s, 0) {
          var k :| 0 <= k && k + 1 < |s| && s[k] == '.';
          assert k != 0;
          assert t[k - 1] == '.';
        }
      }
    }
  }

  lemma AfterAtAccepts(s: string)
    ensures EmailRun(AfterAt, s) == Tld <==> |s| >= 1 && AllPlain(s) && DotBeforeEnd(s, 1)
  {
    if s != [] {
      var t := s[1..];
      assert forall j :: 1 <= j < |s| ==> s[j] == t[j - 1];
      if !IsPlain(s[0]) {
        DeadStays(t);
      } else {
        DomainAccepts(t);
        if DotBeforeEnd(t, 0) {
          var k :| 0 <= k && k + 1 < |t| && t[k] == '.';
          assert s[k + 1] == '.';
        }
        if DotBeforeEnd(s, 1) {
          var k :| 1 <= k && k + 1 < |s| && s[k] == '.';
          assert t[k - 1] == '.';
        }
      }
    }
  }

  lemma {:induction false} LocalAccepts(s: string)
    ensures EmailRun(Local, s) == Tld <==> exists i, k :: LocalRest(s, i, k)
    decreases |s|
  {
    if s != [] {
      var t := s[1..];
      assert forall j :: 1 <= j < |s| ==> s[j] == t[j - 1];
      if IsWhitespace(s[0]) {
        DeadStays(t);
      } else if s[0] == '@' {
        AfterAtAccepts(t);
        if EmailRun(AfterAt, t) == Tld {
          var k :| 1 <= k && k + 1 < |t| && t[k] == '.';
          assert LocalRest(s, 0, k + 1);
        }
        if exists i, k :: LocalRest(s, i, k) {
          var i, k :| LocalRest(s, i, k);
          assert i == 0;
          assert t[k - 1] == '.';
          assert DotBeforeEnd(t, 1);
        }
      } else {
        LocalAccepts(t);
        if exists i, k :: LocalRest(t, i, k) {
          var i, k :| LocalRest(t, i, k);
          assert LocalRest(s, i + 1, k + 1);
        }
        if exists i, k :: LocalRest(s, i, k) {
          var i, k :| LocalRest(s, i, k);
          assert i != 0;
          assert LocalRest(t, i - 1, k - 1);
        }
      }
    }
  }

  /** The automaton accepts exactly the strings of the email shape. */
  lemma EmailIff(s: string)
    ensures EmailRun(Start, s) == Tld <==> EmailShape(s)
  {
    if s == [] {
    } else {
      var t := s[1..];
      assert forall j :: 1 <= j < |s| ==> s[j] == t[j - 1];
      if !IsPlain(s[0]) {
        DeadStays(t);
      } else {
        LocalAccepts(t);
        if exists i, k :: LocalRest(t, i, k) {
          var i, k :| LocalRest(t, i, k);
          assert EmailSplitsAt(s, i + 1, k + 1);
        }
        if EmailShape(s) {
          var i, k :| EmailSplitsAt(s, i, k);
          assert LocalRest(t, i - 1, k - 1);
        }
      }
    }
  }

  /** What an accepted address looks like, condition by condition: no
      whitespace, exactly one `@`, a non-empty local part, and after the `@`
      two non-empty parts free of `@` and whitespace joined by a dot. */
  lemma EmailAccepted(s: string)
    requires IsValidEmail(s)
    ensures forall j :: 0 <= j < |s| ==> !IsWhitespace(s[j])
    ensures exists i :: (0 < i < |s| && s[i] == '@'
      && (forall j :: 0 <= j < |s| && s[j] == '@' ==> j == i)
      && exists k :: i + 1 < k && k + 1 < |s| && s[k] == '.')
  {
    var i, k :| EmailSplitsAt(s, i, k);
    assert forall j :: 0 <= j < |s| && j != i ==> IsPlain(s[j]);
    assert s[i] == '@' && !IsWhitespace(s[i]);
    assert i + 1 < k && k + 1 < |s| && s[k] == '.';
  }

  /** Inputs with whitespace, with no `@`, or with two `@` are rejected. */
  lemma EmailRejected(s: string)
    requires (exists j :: 0 <= j < |s| && IsWhitespace(s[j]))
          || (forall j :: 0 <= j < |s| ==> s[j] != '@')
          || (exists j1, j2 :: 0 <= j1 < j2 < |s| && s[j1] == '@' && s[j2] == '@')
    ensures !IsValidEmail(s)
  {
  }

  lemma EmailExamples()
    ensures IsValidEmail("a@b.com")
    ensures !IsValidEmail("a@b")
    ensures !IsValidEmail("@b.com")
    ensures !IsValidEmail("a@b.")
  {
    assert EmailSplitsAt("a@b.com", 1, 3);
  }

  // ---------------------------------------------------------------------
  // isValidPhone: /^\+?[0-9\-\s]{7,15}$/

  /** A character of the class `[0-9\-\s]`. */
  predicate IsPhoneChar(c: char) {
    ('0' <= c <= '9') || c == '-' || IsWhitespace(c)
  }

  /** Scans `s`, giving the number of characters read if every one of them
      is a phone character, and -1 at the first one that is not. */
  function PhoneScan(s: string): int
    decreases |s|
  {
    if s == [] then 0
    else if !IsPhoneChar(s[0]) then -1
    else
      var n := PhoneScan(s[1..]);
      if n < 0 then -1 else n + 1
  }

  /** What follows the optional leading `+`. */
  function PhoneBody(s: string): string {
    if s != [] && s[0] == '+' then s[1..] else s
  }

  /** `isValidPhone`: the scan of the body reads seven to fifteen phone
      characters. It accepts exactly the strings of the phone shape. */
  predicate IsValidPhone(s: string)
    ensures IsValidPhone(s) <==> PhoneShape(s)
  {
    PhoneIff(s);
    7 <= PhoneScan(PhoneBody(s)) <= 15
  }

  /** The scan succeeds exactly on strings of phone characters, and then
      counts all of them. */
  lemma {:induction false} PhoneScanIff(s: string)
    ensures PhoneScan(s) >= 0 <==> forall j :: 0 <= j < |s| ==> IsPhoneChar(s[j])
    ensures PhoneScan(s) >= 0 ==> PhoneScan(s) == |s|
    decreases |s|
  {
    if s != [] {
      PhoneScanIff(s[1..]);
      assert forall j :: 1 <= j < |s| ==> s[j] == s[1..][j - 1];
    }
  }

  /** The exact language of the phone pattern. */
  ghost predicate PhoneShape(s: string) {
    exists p :: PhoneSplit(s, p)
  }

  /** `s` is `p` leading `+` signs (none or one) followed by seven to fifteen
      phone characters. */
  predicate PhoneSplit(s: string, p: int) {
    && 0 <= p <= 1 && 7 <= |s| - p <= 15
    && (p == 1 ==> s[0] == '+')
    && forall j :: p <= j < |s| ==> IsPhoneChar(s[j])
  }

  /** The scan-based recogniser accepts exactly the phone shape. */
  lemma PhoneIff(s: string)
    ensures 7 <= PhoneScan(PhoneBody(s)) <= 15 <==> PhoneShape(s)
  {
    if s != [] && s[0] == '+' {
      var t := s[1..];
      PhoneScanIff(t);
      assert forall j :: 1 <= j < |s| ==> s[j] == t[j - 1];
      if 7 <= PhoneScan(t) <= 15 {
        assert PhoneSplit(s, 1);
      }
      if PhoneShape(s) {
        var p :| PhoneSplit(s, p);
        assert p == 1;
      }
    } else {
      PhoneScanIff(s);
      if 7 <= PhoneScan(s) <= 15 {
        assert PhoneSplit(s, 0);
      }
      if PhoneShape(s) {
        var p :| PhoneSplit(s, p);
        assert p == 0;
      }
    }
  }

  /** An accepted phone number is seven to sixteen characters long. */
  lemma PhoneLength(s: string)
    requires IsValidPhone(s)
    ensures 7 <= |s| <= 16
  {
  }

  /** A character that is not a phone character, anywhere except as a
      leading `+`, makes the input rejected: a letter of any script, a `+`
      past the first position, any other punctuation. */
  lemma PhoneRejected(s: string, j: int)
    requires 0 <= j < |s| && !IsPhoneChar(s[j]) && !(j == 0 && s[j] == '+')
    ensures !IsValidPhone(s)
  {
  }
}
