/** The password-strength rule of the registration form (String/Task1.js).

    A password is accepted when it is at least eight characters long and
    contains an ASCII upper-case letter, an ASCII digit and one of the
    special characters of the form's character class.

    Strings are `seq<char>`, one `char` per character. The form counts
    length in UTF-16 code units (JavaScript `.length`); for a password made
    of characters of the Basic Multilingual Plane (up to U+FFFF) each
    character is one code unit, so `|p|` is that length. A character beyond
    U+FFFF is two code units in the form and one `char` here.
 */
module PasswordRule {

  /** Smallest accepted password length. */
  const MinLength: nat := 8

  /** The members of the character class `[!@#$%^&*(),.?":{}|<>]`. Inside the
      class `^` is not the first character, so it stands for itself. */
  const SpecialChars: string := "!@#$%^&*(),.?\":{}|<>"

  /** The three character classes the rule tests for. */
  datatype CharClass = Upper | Digit | Special

  /** Membership of one character in one class: `[A-Z]`, `\d` (ASCII `0`-`9`)
      and the special-character class. Every member of a class is a visible
      ASCII character, and no character belongs to two classes. */
  function InClass(c: char, k: CharClass): (member: bool)
    ensures member ==> '!' <= c <= '~'
    ensures member && k != Upper ==> !('A' <= c <= 'Z')
    ensures member && k != Digit ==> !('0' <= c <= '9')
  {
    match k
    case Upper => 'A' <= c <= 'Z'
    case Digit => '0' <= c <= '9'
    case Special => c in SpecialChars
  }

  /** A character that belongs to none of the three classes. */
  predicate Neutral(c: char) {
    !InClass(c, Upper) && !InClass(c, Digit) && !InClass(c, Special)
  }

  /** The meaning of a class test: some position of `p` holds a member of `k`. */
  ghost predicate Contains(p: string, k: CharClass) {
    exists i :: 0 <= i < |p| && InClass(p[i], k)
  }

  /** `RegExp.prototype.test` for a one-character class: try each start
      position from the left and succeed at the first character that matches. */
  function Test(k: CharClass, p: string): (found: bool)
    ensures found <==> Contains(p, k)
    decreases |p|
  {
    if |p| == 0 then false
    else if InClass(p[0], k) then true
    else
      var rest := Test(k, p[1..]);
      assert Contains(p[1..], k) ==> Contains(p, k) by {
        if Contains(p[1..], k) {
          var i :| 0 <= i < |p[1..]| && InClass(p[1..][i], k);
          assert InClass(p[i + 1], k);
        }
      }
      assert Contains(p, k) ==> Contains(p[1..], k) by {
        if Contains(p, k) {
          var i :| 0 <= i < |p| && InClass(p[i], k);
          assert i != 0;
          assert InClass(p[1..][i - 1], k);
        }
      }
      rest
  }

  /** The form's `isValidPassword`: the conjunction of the length test and
      the three class tests, in the order the form evaluates them.
      A password is valid exactly when all four conditions hold; dropping
      any one of them (too short, no upper-case letter, no digit, no special)
      makes it invalid. */
  function IsValidPassword(p: string): (valid: bool)
    ensures valid <==>
      && |p| >= MinLength
      && Contains(p, Upper)
      && Contains(p, Digit)
      && Contains(p, Special)
  {
    |p| >= MinLength && Test(Upper, p) && Test(Digit, p) && Test(Special, p)
  }

  /** Any password shorter than eight characters is refused, whatever it holds. */
  lemma ShortIsInvalid(p: string)
    requires |p| < MinLength
    ensures !IsValidPassword(p)
  {
  }

  /** A short password that has all three classes is still refused. */
  lemma ShortButCompleteIsInvalid()
    ensures Contains("Ab1!", Upper) && Contains("Ab1!", Digit) && Contains("Ab1!", Special)
    ensures !IsValidPassword("Ab1!")
  {
    assert InClass("Ab1!"[0], Upper);
    assert InClass("Ab1!"[2], Digit);
    assert InClass("Ab1!"[3], Special);
  }

  /** A password in which no character belongs to class `k` is refused. */
  lemma MissingClassIsInvalid(p: string, k: CharClass)
    requires !Contains(p, k)
    ensures !IsValidPassword(p)
  {
  }

  /** `p` with every member of class `k` deleted: no member of `k` is left,
      and every other character occurs as often as in `p`. */
  function Without(p: string, k: CharClass): (q: string)
    ensures |q| <= |p|
    ensures forall j :: 0 <= j < |q| ==> !InClass(q[j], k)
    ensures forall c :: !InClass(c, k) ==> multiset(q)[c] == multiset(p)[c]
  {
    if |p| == 0 then []
    else
      assert p == [p[0]] + p[1..];
      if InClass(p[0], k) then Without(p[1..], k)
      else [p[0]] + Without(p[1..], k)
  }

  /** Deleting every upper-case letter, every digit or every special
      character from a password leaves a password that is refused, although
      the other two classes survive the deletion: the missing class alone
      is the cause. */
  lemma {:induction false} RemovingClassInvalidates(p: string, k: CharClass)
    ensures !Contains(Without(p, k), k)
    ensures forall k': CharClass :: k' != k ==> (Contains(Without(p, k), k') <==> Contains(p, k'))
    ensures !IsValidPassword(Without(p, k))
  {
    var q := Without(p, k);
    forall k': CharClass | k' != k
      ensures Contains(q, k') <==> Contains(p, k')
    {
      if Contains(p, k') {
        var i :| 0 <= i < |p| && InClass(p[i], k');
        var c := p[i];
        assert !InClass(c, k) by { ClassesDisjoint(c, k, k'); }
        assert c in multiset(p);
        assert c in multiset(q);
        var j :| 0 <= j < |q| && q[j] == c;
        assert InClass(q[j], k');
      }
      if Contains(q, k') {
        var j :| 0 <= j < |q| && InClass(q[j], k');
        var c := q[j];
        assert c in multiset(q);
        assert c in multiset(p);
        var i :| 0 <= i < |p| && p[i] == c;
        assert InClass(p[i], k');
      }
    }
  }

  /** No character belongs to two different classes. */
  lemma ClassesDisjoint(c: char, k: CharClass, k': CharClass)
    requires k != k'
    ensures !(InClass(c, k) && InClass(c, k'))
  {
  }

  /** Characters outside the three classes do not change which classes a
      password contains: inserting one anywhere leaves every class test as it
      was, so it can only help through the length test. */
  lemma {:induction false} NeutralInsertKeepsClasses(p: string, j: nat, c: char, k: CharClass)
    requires j <= |p|
    requires Neutral(c)
    ensures Contains(p[..j] + [c] + p[j..], k) <==> Contains(p, k)
  {
    var q := p[..j] + [c] + p[j..];
    InsertAt(p, j, c);
    if Contains(q, k) {
      var i :| 0 <= i < |q| && InClass(q[i], k);
      assert i != j;
      if i < j {
        assert InClass(p[i], k);
      } else {
        assert InClass(p[i - 1], k);
      }
    }
    if Contains(p, k) {
      var i :| 0 <= i < |p| && InClass(p[i], k);
      if i < j {
        assert InClass(q[i], k);
      } else {
        assert InClass(q[i + 1], k);
      }
    }
  }

  /** Where each character of `p` lands after inserting `c` at position `j`. */
  lemma InsertAt(p: string, j: nat, c: char)
    requires j <= |p|
    ensures |p[..j] + [c] + p[j..]| == |p| + 1
    ensures (p[..j] + [c] + p[j..])[j] == c
    ensures forall i :: 0 <= i < j ==> (p[..j] + [c] + p[j..])[i] == p[i]
    ensures forall i :: j < i <= |p| ==> (p[..j] + [c] + p[j..])[i] == p[i - 1]
  {
  }

  /** Inserting a neutral character changes validity only through the length. */
  lemma NeutralInsertValidity(p: string, j: nat, c: char)
    requires j <= |p|
    requires Neutral(c)
    ensures IsValidPassword(p[..j] + [c] + p[j..]) <==>
      && |p| + 1 >= MinLength
      && Contains(p, Upper)
      && Contains(p, Digit)
      && Contains(p, Special)
  {
    NeutralInsertKeepsClasses(p, j, c, Upper);
    NeutralInsertKeepsClasses(p, j, c, Digit);
    NeutralInsertKeepsClasses(p, j, c, Special);
  }

  /** Replacing a neutral character by another neutral character neither
      helps nor hurts: lower-case letters, spaces and specials the class does
      not list (such as `-` or `_`) are interchangeable. */
  lemma {:induction false} NeutralReplaceKeepsValidity(p: string, j: nat, c: char)
    requires j < |p|
    requires Neutral(p[j]) && Neutral(c)
    ensures IsValidPassword(p[j := c]) <==> IsValidPassword(p)
  {
    var q := p[j := c];
    forall k: CharClass
      ensures Contains(q, k) <==> Contains(p, k)
    {
      if Contains(q, k) {
        var i :| 0 <= i < |q| && InClass(q[i], k);
        assert i != j;
        assert p[i] == q[i];
      }
      if Contains(p, k) {
        var i :| 0 <= i < |p| && InClass(p[i], k);
        assert i != j;
        assert q[i] == p[i];
      }
    }
  }

  /** Only which characters occur matters, not where: any rearrangement of a
      password is accepted exactly when the password is. */
  lemma {:induction false} PermutationKeepsValidity(p: string, q: string)
    requires multiset(p) == multiset(q)
    ensures IsValidPassword(p) <==> IsValidPassword(q)
  {
    assert |p| == |multiset(p)| == |multiset(q)| == |q|;
    forall k: CharClass
      ensures Contains(p, k) ==> Contains(q, k)
    {
      PermutationKeepsClass(p, q, k);
    }
    forall k: CharClass
      ensures Contains(q, k) ==> Contains(p, k)
    {
      PermutationKeepsClass(q, p, k);
    }
  }

  /** A class present in `p` is present in every rearrangement of `p`. */
  lemma {:induction false} PermutationKeepsClass(p: string, q: string, k: CharClass)
    requires multiset(p) == multiset(q)
    ensures Contains(p, k) ==> Contains(q, k)
  {
    if Contains(p, k) {
      var i :| 0 <= i < |p| && InClass(p[i], k);
      assert p[i] in multiset(p);
      assert p[i] in q;
      var j :| 0 <= j < |q| && q[j] == p[i];
      assert InClass(q[j], k);
    }
  }

  /** Every test is a length lower bound or a search, so appending characters
      to an accepted password keeps it accepted. */
  lemma {:induction false} ExtensionKeepsValidity(p: string, s: string)
    requires IsValidPassword(p)
    ensures IsValidPassword(p + s)
  {
    forall k: CharClass
      ensures Contains(p + s, k)
    {
      var i :| 0 <= i < |p| && InClass(p[i], k);
      assert (p + s)[i] == p[i];
    }
  }

  /** A password that the rule accepts. */
  lemma StrongExample()
    ensures IsValidPassword("Passw0rd!")
  {
    assert InClass("Passw0rd!"[0], Upper);
    assert InClass("Passw0rd!"[5], Digit);
    assert InClass("Passw0rd!"[8], Special);
  }

  /** The same password in lower case only is refused: it has no `A`-`Z`. */
  lemma NoUpperExample()
    ensures !IsValidPassword("passw0rd!")
  {
  }

  /** `-` and `_` are not in the special class, so a password whose only
      "special" characters are these is refused. */
  lemma DashAndUnderscoreAreNotSpecial()
    ensures Neutral('-') && Neutral('_')
    ensures !IsValidPassword("Password1-_")
  {
    var p := "Password1-_";
    assert forall i :: 0 <= i < |p| ==> p[i] !in SpecialChars;
  }

  /** The classes are ASCII only: an accented capital and a non-ASCII digit
      count for nothing. */
  lemma NonAsciiIsNeutral()
    ensures Neutral('Ä')
    ensures Neutral('٣')
  {
  }
}
