/** The outcome of `registerUser` (String/Task1.js): the entered password
    and its re-entry decide which of three messages the form reports. The
    prompts for name, e-mail and mobile number play no part in the outcome,
    and the message is returned instead of logged.
 */
module Registration {
  import opened PasswordRule

  /** The three results of a registration attempt. */
  datatype Outcome = Mismatch | Created | TooWeak

  /** The message the form reports for each outcome. */
  function Message(o: Outcome): string {
    match o
    case Mismatch => "Passwords do not match"
    case Created => "Account created successfully"
    case TooWeak => "Password is too weak"
  }

  /** Different outcomes are reported by different messages, so the message
      tells the outcome. */
  lemma MessageDeterminesOutcome(o1: Outcome, o2: Outcome)
    requires Message(o1) == Message(o2)
    ensures o1 == o2
  {
  }

  /** The priority chain: a mismatch wins over everything; for matching
      entries the password rule decides between created and too weak. The
      entries are compared with strict string equality. */
  function Register(password: string, reentered: string): (r: Outcome)
    ensures r == Mismatch <==> password != reentered
    ensures r == Created <==> password == reentered && IsValidPassword(password)
    ensures r == TooWeak <==> password == reentered && !IsValidPassword(password)
  {
    if password != reentered then Mismatch
    else if IsValidPassword(password) then Created
    else TooWeak
  }

  /** Differing entries are always reported as a mismatch, even when both are
      strong passwords. */
  lemma MismatchRegardlessOfStrength()
    ensures IsValidPassword("Passw0rd!") && IsValidPassword("Passw0rd?")
    ensures Register("Passw0rd!", "Passw0rd?") == Mismatch
  {
    StrongExample();
    assert InClass("Passw0rd?"[0], Upper);
    assert InClass("Passw0rd?"[5], Digit);
    assert InClass("Passw0rd?"[8], Special);
  }

  /** With matching entries, the account is created exactly when the
      password is long enough and has all three classes. */
  lemma CreatedIffConfirmedAndStrong(password: string, reentered: string)
    ensures Register(password, reentered) == Created <==>
      && password == reentered
      && |password| >= MinLength
      && Contains(password, Upper)
      && Contains(password, Digit)
      && Contains(password, Special)
  {
  }

  /** The text the form logs for a pair of entries: the mismatch message
      exactly when they differ, the success message exactly when they agree
      and the password is valid, the weakness message exactly when they agree
      and it is not. */
  lemma RegisterMessage(password: string, reentered: string)
    ensures Message(Register(password, reentered)) == "Passwords do not match" <==>
      password != reentered
    ensures Message(Register(password, reentered)) == "Account created successfully" <==>
      password == reentered && IsValidPassword(password)
    ensures Message(Register(password, reentered)) == "Password is too weak" <==>
      password == reentered && !IsValidPassword(password)
  {
  }

  /** Once a confirmed password is accepted, confirming any extension of it
      is accepted too. */
  lemma CreatedKeptUnderExtension(password: string, s: string)
    requires Register(password, password) == Created
    ensures Register(password + s, password + s) == Created
  {
    ExtensionKeepsValidity(password, s);
  }

  /** A confirmed password that the rule refuses is too weak, never a
      mismatch. */
  lemma ConfirmedWeakIsTooWeak(password: string)
    requires !IsValidPassword(password)
    ensures Register(password, password) == TooWeak
  {
  }

  /** Two confirmed weak passwords: one without a capital, one too short. */
  lemma ConfirmedWeakExamples()
    ensures Register("passw0rd!", "passw0rd!") == TooWeak
    ensures Register("Ab1!", "Ab1!") == TooWeak
  {
    NoUpperExample();
    ShortButCompleteIsInvalid();
  }
}
