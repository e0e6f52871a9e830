/** The registration validators of database.py and the guards at the start of
    `register_user`. Both validators are anchored `re.match` patterns; Python's `$`
    matches at the end of the string and also just before a single final newline. */
module Registration {
  import opened PyStrings

  /** The class `[\w\.-]` of the local part. */
  predicate IsLocalChar(c: char) {
    IsWordChar(c) || c == '.' || c == '-'
  }

  predicate AllLocal(s: string) {
    forall i :: 0 <= i < |s| ==> IsLocalChar(s[i])
  }

  const GmailDomain: string := "@gmail.com"

  /** The length of the longest prefix of `s` made of local-part characters: what the
      greedy `[\w\.-]+` consumes. */
  function LocalRun(s: string): (n: nat)
    ensures n <= |s| && AllLocal(s[..n])
    ensures n < |s| ==> !IsLocalChar(s[n])
  {
    if s != [] && IsLocalChar(s[0]) then
      var n := 1 + LocalRun(s[1..]);
      assert s[..n] == [s[0]] + s[1..][..n - 1];
      n
    else 0
  }

  /** `is_valid_email`: the greedy local run is non-empty and is followed by exactly
      "@gmail.com", or by "@gmail.com" and one newline. Giving back characters of the
      run cannot help, since '@' is not a local-part character. */
  function IsValidEmail(email: string): (ok: bool)
    ensures ok ==> email != [] && IsLocalChar(email[0])
    ensures ok ==> EndsWith(email, GmailDomain) || EndsWith(email, GmailDomain + "\n")
  {
    var n := LocalRun(email);
    if n >= 1 then
      assert email[..n][0] == email[0];
      email[n..] == GmailDomain || email[n..] == GmailDomain + "\n"
    else false
  }

  /** `email` is a local part of `k` characters followed by the domain. */
  predicate GmailAddressAt(email: string, k: int) {
    1 <= k <= |email| && AllLocal(email[..k])
    && (email[k..] == GmailDomain || email[k..] == GmailDomain + "\n")
  }

  /** The validator accepts exactly the strings L + "@gmail.com", optionally followed by
      one newline, where L is a non-empty string of word characters, '.' and '-'. */
  lemma IsValidEmailIff(email: string)
    ensures IsValidEmail(email) <==> exists k | 0 <= k <= |email| :: GmailAddressAt(email, k)
  {
    var n := LocalRun(email);
    if IsValidEmail(email) {
      assert GmailAddressAt(email, n);
    }
    if exists k | 0 <= k <= |email| :: GmailAddressAt(email, k) {
      var k :| 0 <= k <= |email| && GmailAddressAt(email, k);
      assert email[k] == '@';
      LocalRunIsLocalPart(email, k);
    }
  }

  /** Where an all-local prefix of length `k` is followed by '@', the greedy run stops
      exactly at `k`. */
  lemma LocalRunIsLocalPart(email: string, k: int)
    requires 0 <= k < |email| && AllLocal(email[..k]) && email[k] == '@'
    ensures LocalRun(email) == k
    decreases k
  {
    if k > 0 {
      assert email[..k][0] == email[0];
      assert email[1..][..k - 1] == email[..k][1..];
      LocalRunIsLocalPart(email[1..], k - 1);
    }
  }

  /** Every accepted address holds exactly one '@', the one that ends the local part. */
  lemma ValidEmailHasOneAt(email: string)
    requires IsValidEmail(email)
    ensures email[LocalRun(email)] == '@'
    ensures forall i :: 0 <= i < |email| && email[i] == '@' ==> i == LocalRun(email)
  {
    var n := LocalRun(email);
    var tail := email[n..];
    DomainHasOneAt(tail);
    forall i | 0 <= i < |email| && email[i] == '@'
      ensures i == n
    {
      if i >= n {
        assert tail[i - n] == email[i];
      }
    }
  }

  /** The domain part holds '@' only in front. */
  lemma DomainHasOneAt(tail: string)
    requires tail == GmailDomain || tail == GmailDomain + "\n"
    ensures tail[0] == '@'
    ensures forall j :: 0 < j < |tail| ==> tail[j] != '@'
  {
  }

  /** An address with another domain is rejected, whatever its local part. */
  lemma OtherDomainRejected(local: string, domain: string)
    requires AllLocal(local)
    requires domain != "gmail.com" && domain != "gmail.com\n"
    ensures !IsValidEmail(local + "@" + domain)
  {
    var email := local + "@" + domain;
    if local != [] {
      assert email[|local|] == '@';
      assert email[..|local|] == local;
      LocalRunIsLocalPart(email, |local|);
      assert email[|local|..] == "@" + domain;
      assert ("@" + domain)[1..] == domain;
      assert GmailDomain[1..] == "gmail.com";
      assert (GmailDomain + "\n")[1..] == "gmail.com\n";
    }
  }

  /** An address with an empty local part is rejected. */
  lemma EmptyLocalPartRejected(rest: string)
    ensures !IsValidEmail("@" + rest)
  {
    assert ("@" + rest)[0] == '@';
  }

  /** Because of `$`, an accepted address followed by one newline is accepted too, but
      not one followed by two. */
  lemma EmailTrailingNewline(local: string)
    requires local != [] && AllLocal(local)
    ensures IsValidEmail(local + GmailDomain)
    ensures IsValidEmail(local + GmailDomain + "\n")
    ensures !IsValidEmail(local + GmailDomain + "\n\n")
  {
    var e0 := local + GmailDomain;
    var e1 := local + GmailDomain + "\n";
    var e2 := local + GmailDomain + "\n\n";
    assert e0[..|local|] == local && e0[|local|] == '@' && e0[|local|..] == GmailDomain;
    assert e1[..|local|] == local && e1[|local|] == '@' && e1[|local|..] == GmailDomain + "\n";
    assert e2[..|local|] == local && e2[|local|] == '@' && e2[|local|..] == GmailDomain + "\n\n";
    LocalRunIsLocalPart(e0, |local|);
    LocalRunIsLocalPart(e1, |local|);
    LocalRunIsLocalPart(e2, |local|);
    assert |GmailDomain + "\n\n"| != |GmailDomain| && |GmailDomain + "\n\n"| != |GmailDomain + "\n"|;
  }

  // ---------------------------------------------------------------------------
  // is_valid_phone_number
  // ---------------------------------------------------------------------------

  predicate AllDigits(s: string) {
    forall i :: 0 <= i < |s| ==> IsAsciiDigit(s[i])
  }

  /** `is_valid_phone_number`: `\d{10}` followed by the end of the string, or by one
      final newline. */
  function IsValidPhoneNumber(phoneNo: string): (ok: bool)
    ensures ok ==> (|phoneNo| == 10 || |phoneNo| == 11) && forall i :: 0 <= i < 10 ==> IsAsciiDigit(phoneNo[i])
  {
    assert |phoneNo| >= 10 ==> forall i :: 0 <= i < 10 ==> phoneNo[..10][i] == phoneNo[i];
    |phoneNo| >= 10 && AllDigits(phoneNo[..10]) && (phoneNo[10..] == "" || phoneNo[10..] == "\n")
  }

  /** A string of digits is accepted exactly when it has ten of them: nine or eleven
      digits are rejected. */
  lemma DigitStringAccepted(phoneNo: string)
    requires AllDigits(phoneNo)
    ensures IsValidPhoneNumber(phoneNo) <==> |phoneNo| == 10
  {
    if |phoneNo| > 10 {
      assert phoneNo[10..][0] == phoneNo[10];
      assert IsAsciiDigit(phoneNo[10]);
    }
    if |phoneNo| == 10 {
      assert phoneNo[..10] == phoneNo;
    }
  }

  /** Every accepted number is ten digits, optionally followed by one newline; a
      non-digit among the first ten characters is rejected. */
  lemma ValidPhoneShape(phoneNo: string)
    ensures IsValidPhoneNumber(phoneNo) <==>
            (|phoneNo| == 10 || (|phoneNo| == 11 && phoneNo[10] == '\n'))
            && (forall i :: 0 <= i < 10 ==> IsAsciiDigit(phoneNo[i]))
  {
    if |phoneNo| >= 10 {
      assert forall i :: 0 <= i < 10 ==> phoneNo[..10][i] == phoneNo[i];
      if |phoneNo| == 11 {
        assert phoneNo[10..] == [phoneNo[10]];
      }
    }
  }

  // ---------------------------------------------------------------------------
  // register_user
  // ---------------------------------------------------------------------------

  /** What the database does with the insert when it is reached. */
  datatype DbOutcome = Inserted | IntegrityViolation | DbFailed

  /** How `register_user` ends; only `Registered` returns `True`. */
  datatype RegisterOutcome = Registered | InvalidEmail | InvalidPhone | DuplicateUser | RegistrationFailed

  /** `register_user`: the email is checked first, then the phone number; the database
      is reached only when both are valid. */
  function RegisterUser(phoneNo: string, email: string, db: DbOutcome): (r: RegisterOutcome)
    ensures r == InvalidEmail <==> !IsValidEmail(email)
    ensures r == InvalidPhone <==> IsValidEmail(email) && !IsValidPhoneNumber(phoneNo)
    ensures r == Registered <==> IsValidEmail(email) && IsValidPhoneNumber(phoneNo) && db == Inserted
  {
    if !IsValidEmail(email) then InvalidEmail
    else if !IsValidPhoneNumber(phoneNo) then InvalidPhone
    else
      match db
      case Inserted => Registered
      case IntegrityViolation => DuplicateUser
      case DbFailed => RegistrationFailed
  }

  /** The boolean `register_user` returns. */
  function Returns(r: RegisterOutcome): bool {
    r == Registered
  }

  /** An invalid email or phone number ends the call before any database access: the
      outcome does not depend on what the database would do. */
  lemma GuardsBeforeDatabase(phoneNo: string, email: string, db1: DbOutcome, db2: DbOutcome)
    requires !IsValidEmail(email) || !IsValidPhoneNumber(phoneNo)
    ensures RegisterUser(phoneNo, email, db1) == RegisterUser(phoneNo, email, db2)
    ensures !Returns(RegisterUser(phoneNo, email, db1))
  {
  }
}
