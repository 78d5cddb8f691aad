/** The gate every submitted address passes, and what it makes of the database's exact-case constraint. */
module Email {
  import opened Wrappers
  import opened Text
  import opened StoreRuns
  import opened AccountRuns

  const MAX_BYTES := 254

  /** unicode.IsSpace. */
  predicate IsSpace(c: char) {
    var n := c as int;
    9 <= n <= 13 || n == 0x20 || n == 0x85 || n == 0xA0 || n == 0x1680 || 0x2000 <= n <= 0x200A
    || n == 0x2028 || n == 0x2029 || n == 0x202F || n == 0x205F || n == 0x3000
  }

  function Trim(s: string): string {
    if s == "" then ""
    else if IsSpace(s[0]) then Trim(s[1..])
    else if IsSpace(s[|s| - 1]) then Trim(s[..|s| - 1])
    else s
  }

  /** The length of s in UTF-8. */
  function ByteLength(s: string): nat {
    if s == "" then 0
    else
      var c := s[|s| - 1] as int;
      ByteLength(s[..|s| - 1]) + if c < 0x80 then 1 else if c < 0x800 then 2 else if c < 0x10000 then 3 else 4
  }

  /** The library functions the gate uses: lower-casing, and the address that net/mail parses out of a text. */
  datatype Gate = Gate(lower: string -> string, parses: string -> Option<string>)

  /** The canonical form of what was submitted, and whether it is accepted. */
  function ParseEmail(g: Gate, raw: string): (string, bool) {
    var email := g.lower(Trim(raw));
    if ByteLength(email) > MAX_BYTES then (email, false)
    else if g.parses(email) != Some(email) then (email, false)
    else (email, '.' in AfterLast(email, '@'))
  }

  lemma {:induction false} TrimIsIdempotent(s: string)
    ensures Trim(Trim(s)) == Trim(s)
  {
    if s != "" {
      if IsSpace(s[0]) {
        TrimIsIdempotent(s[1..]);
      } else if IsSpace(s[|s| - 1]) {
        TrimIsIdempotent(s[..|s| - 1]);
      }
    }
  }

  /** Exactly the white space at the two ends goes. */
  lemma {:induction false} TrimKeepsMiddle(s: string) returns (start: nat, end: nat)
    ensures start <= end <= |s| && Trim(s) == s[start..end]
    ensures forall i | 0 <= i < start || end <= i < |s| :: IsSpace(s[i])
    ensures start < end ==> !IsSpace(s[start]) && !IsSpace(s[end - 1])
  {
    if s == "" {
      return 0, 0;
    }
    if IsSpace(s[0]) {
      start, end := TrimKeepsMiddle(s[1..]);
      start, end := start + 1, end + 1;
    } else if IsSpace(s[|s| - 1]) {
      start, end := TrimKeepsMiddle(s[..|s| - 1]);
    } else {
      return 0, |s|;
    }
  }

  /** The part after the last @ has a dot in it. */
  ghost predicate DottedDomain(email: string) {
    exists i | 0 <= i < |email| :: email[i] == '.' && forall k | i < k < |email| :: email[k] != '@'
  }

  lemma {:induction false} DotAfterLast(email: string)
    ensures '.' in AfterLast(email, '@') <==> DottedDomain(email)
  {
    if email != "" {
      var front, last := email[..|email| - 1], email[|email| - 1];
      DotAfterLast(front);
      if last == '.' {
        assert email[|email| - 1] == '.';
      } else if last != '@' {
        DomainGrows(front, last);
        assert email == front + [last];
      }
    }
  }

  lemma DomainGrows(front: string, last: char)
    requires last != '.' && last != '@'
    ensures DottedDomain(front + [last]) <==> DottedDomain(front)
  {
    var email := front + [last];
    if DottedDomain(front) {
      var i :| 0 <= i < |front| && front[i] == '.' && forall k | i < k < |front| :: front[k] != '@';
      assert email[i] == '.';
    }
    if DottedDomain(email) {
      var i :| 0 <= i < |email| && email[i] == '.' && forall k | i < k < |email| :: email[k] != '@';
      assert forall k | i < k < |front| :: front[k] == email[k];
      assert front[i] == '.';
    }
  }

  /** A text has at least a byte for every character, four at most, and no more than one exactly when it is ASCII. */
  lemma {:induction false} BytesPerCharacter(s: string)
    ensures |s| <= ByteLength(s) <= 4 * |s|
    ensures ByteLength(s) == |s| <==> forall i | 0 <= i < |s| :: s[i] as int < 128
  {
    if s != "" {
      BytesPerCharacter(s[..|s| - 1]);
      assert forall i | 0 <= i < |s| - 1 :: s[..|s| - 1][i] == s[i];
    }
  }

  /** What was submitted is lower-cased without the white space around it; accepted are short texts that parse to themselves with a dotted domain. */
  lemma AcceptedIff(g: Gate, raw: string, email: string, ok: bool)
    requires ParseEmail(g, raw) == (email, ok)
    ensures email == g.lower(Trim(raw))
    ensures ok <==> ByteLength(email) <= 254 && g.parses(email) == Some(email) && DottedDomain(email)
  {
    DotAfterLast(email);
  }

  /** Lower-casing twice is lower-casing once, and it puts no white space at the ends of a trimmed text. */
  ghost predicate Settles(lower: string -> string) {
    && (forall s :: lower(lower(s)) == lower(s))
    && (forall s :: Trim(s) == s ==> Trim(lower(s)) == lower(s))
  }

  lemma AsciiLoweringSettles()
    ensures Settles(ToLower)
  {
    forall s | Trim(s) == s
      ensures Trim(ToLower(s)) == ToLower(s)
    {
      if s != "" {
        assert |Trim(s[1..])| <= |s| - 1 by { TrimShortens(s[1..]); }
        assert |Trim(s[..|s| - 1])| <= |s| - 1 by { TrimShortens(s[..|s| - 1]); }
      }
    }
  }

  lemma {:induction false} TrimShortens(s: string)
    ensures |Trim(s)| <= |s|
  {
    if s != "" {
      if IsSpace(s[0]) {
        TrimShortens(s[1..]);
      } else if IsSpace(s[|s| - 1]) {
        TrimShortens(s[..|s| - 1]);
      }
    }
  }

  /** What the gate returns is its own canonical form: submitted again it comes back with the same verdict. */
  lemma AcceptedAgain(g: Gate, raw: string)
    requires Settles(g.lower)
    ensures var (email, ok) := ParseEmail(g, raw); ParseEmail(g, email) == (email, ok)
  {
    TrimIsIdempotent(raw);
    var trimmed := Trim(raw);
    assert Trim(g.lower(trimmed)) == g.lower(trimmed);
    assert g.lower(g.lower(trimmed)) == g.lower(trimmed);
  }

  ghost predicate Accepted(g: Gate, email: string) {
    exists raw :: ParseEmail(g, raw) == (email, true)
  }

  /** Every address the statement writes was accepted by the gate. */
  ghost predicate WritesAccepted(op: Op, g: Gate) {
    && (op.CreateAccount? || op.UpdateEmail? ==> Accepted(g, op.email))
    && (op.SetToken? && op.kind.EmailChange? ==> Accepted(g, op.token.pending))
  }

  /**
   When all writes pass the gate, stored addresses are in the database's lower-case form
   and a case-insensitive lookup finds at most one account. It takes a database that
   leaves alone what the application has lower-cased.
   */
  lemma GateMakesLookupsUnique(ops: seq<Op>, g: Gate, dbLower: string -> string, email: string, i: nat, j: nat)
    requires forall s :: dbLower(g.lower(s)) == g.lower(s)
    requires forall k | 0 <= k < |ops| :: WritesAccepted(ops[k], g)
    requires i in ByEmail(AccountsAfter(ops), dbLower, email) && j in ByEmail(AccountsAfter(ops), dbLower, email)
    ensures i == j
    ensures AllCanonical(AccountsAfter(ops), dbLower)
  {
    forall k | 0 <= k < |ops|
      ensures WritesCanonical(ops[k], dbLower)
    {
      assert WritesAccepted(ops[k], g);
    }
    AddressesStayCanonical(ops, dbLower);
    LookupByEmailIsUnique(ops, dbLower, email, i, j);
  }
}
