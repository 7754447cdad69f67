/**
 * The `User` value object: an id, an email and a name, all required, with an
 * identity (equals and hashCode) that looks at the id alone.
 */
module Users {
  import opened Wrappers
  import opened JavaLang

  /** An immutable user record. Its three fields are never null. */
  datatype User = User(id: Long, email: string, name: string) {

    function GetId(): Long
    {
      id
    }

    function GetEmail(): string
    {
      email
    }

    function GetName(): string
    {
      name
    }
  }

  /** The exception `Objects.requireNonNull` throws, with its message. */
  datatype NullPointerException = NullPointerException(message: string)

  const ID_NULL := "id must not be null"
  const EMAIL_NULL := "email must not be null"
  const NAME_NULL := "name must not be null"

  /**
   * The constructor `new User(id, email, name)`; `None` is a null argument.
   * The checks run in field order, so the first null argument names the exception.
   */
  function NewUser(id: Option<Long>, email: Option<string>, name: Option<string>)
    : (r: Result<User, NullPointerException>)
    ensures r.Ok? <==> id.Some? && email.Some? && name.Some?
    ensures r.Ok? ==> r.value.GetId() == id.value && r.value.GetEmail() == email.value
                      && r.value.GetName() == name.value
    ensures id.None? ==> r == Err(NullPointerException(ID_NULL))
    ensures id.Some? && email.None? ==> r == Err(NullPointerException(EMAIL_NULL))
    ensures id.Some? && email.Some? && name.None? ==> r == Err(NullPointerException(NAME_NULL))
  {
    if id.None? then Err(NullPointerException(ID_NULL))
    else if email.None? then Err(NullPointerException(EMAIL_NULL))
    else if name.None? then Err(NullPointerException(NAME_NULL))
    else Ok(User(id.value, email.value, name.value))
  }

  /**
   * A Java reference as `equals(Object)` sees it: null, a `User` (an instance of
   * exactly that class), or an instance of any other class, subclasses of `User`
   * included, since their `getClass()` differs.
   */
  datatype Object = Null | UserObject(user: User) | OtherObject

  /** `u.equals(o)`. */
  function Equals(u: User, o: Object): (r: bool)
    ensures r <==> o.UserObject? && o.user.id == u.id
  {
    if o == UserObject(u) then true
    else if o.Null? || !o.UserObject? then false
    else o.user.id == u.id
  }

  /** `u.hashCode()`, that is `Objects.hash(id)` = `31 * 1 + Long.hashCode(id)` in `int` arithmetic. */
  function HashCode(u: User): (h: int)
    ensures IsInt32(h)
  {
    ToInt32(31 + LongHashCode(u.id))
  }

  /**
   * `u.toString()`: "User{id=", the decimal id, then the quoted email and name.
   * Whatever the email and name contain, the text starts with "User{id=", ends
   * with "'}", and the id reads back from it.
   */
  function ToString(u: User): (s: string)
    ensures ID_PREFIX <= s
    ensures IdOfText(s) == Some(u.id as int)
    ensures s[|s| - 2..] == "'}"
  {
    var digits := LongToString(u.id);
    var rest := ", email='" + u.email + "', name='" + u.name + "'}";
    assert forall i :: 0 <= i < |digits| ==> digits[i] != ',';
    UpToCommaPrefix(digits, rest);
    LongToStringRoundTrip(u.id);
    assert (ID_PREFIX + (digits + rest))[|ID_PREFIX|..] == digits + rest;
    ID_PREFIX + (digits + rest)
  }

  // ---------------------------------------------------------------------------
  // Properties of the identity.

  /** Email and name play no part in equality. */
  lemma EqualsIgnoresEmailAndName(u: User, v: User)
    ensures Equals(u, UserObject(v)) <==> u.id == v.id
    ensures Equals(u, UserObject(v)) ==> Equals(u, UserObject(User(v.id, "", "")))
  {
  }

  lemma EqualsReflexive(u: User)
    ensures Equals(u, UserObject(u))
  {
  }

  lemma EqualsNull(u: User)
    ensures !Equals(u, Null)
  {
  }

  lemma EqualsSymmetric(u: User, v: User)
    ensures Equals(u, UserObject(v)) <==> Equals(v, UserObject(u))
  {
  }

  lemma EqualsTransitive(u: User, v: User, w: User)
    requires Equals(u, UserObject(v)) && Equals(v, UserObject(w))
    ensures Equals(u, UserObject(w))
  {
  }

  /** The hashCode contract: equal users have equal hash codes. */
  lemma EqualsImpliesSameHash(u: User, v: User)
    requires Equals(u, UserObject(v))
    ensures HashCode(u) == HashCode(v)
  {
  }

  /** For ids from 0 up to 2^31 - 32 the hash code is 31 + id. */
  lemma HashCodeOfSmallId(u: User)
    requires 0 <= u.id as int < TWO_31 - 31
    ensures HashCode(u) == 31 + u.id as int
  {
    LongHashCodeOfSmall(u.id);
  }

  /** The converse of the hashCode contract does not hold: ids 0 and -1 collide. */
  lemma HashCodeCollision()
    ensures HashCode(User(0, "", "")) == HashCode(User(-1, "", "")) == 31
    ensures !Equals(User(0, "", ""), UserObject(User(-1, "", "")))
  {
    LongHashCodeOfSmall(0);
    var bits := (-1) % TWO_64;
    assert bits == TWO_64 - 1;
    assert bits / TWO_32 == TWO_32 - 1 && bits % TWO_32 == TWO_32 - 1;
    XorBitsSelf(TWO_32 - 1, 32);
    assert LongHashCode(-1) == 0;
  }

  // ---------------------------------------------------------------------------
  // Properties of the text form.

  const ID_PREFIX := "User{id="

  /** The longest prefix of `s` without a comma. */
  function UpToComma(s: string): (r: string)
    ensures r <= s && ',' !in r
    ensures |r| < |s| ==> s[|r|] == ','
  {
    if s == [] || s[0] == ',' then [] else [s[0]] + UpToComma(s[1..])
  }

  /** Reads the id back from the text of `toString`. */
  function IdOfText(s: string): (r: Option<int>)
  {
    if ID_PREFIX <= s then ParseLong(UpToComma(s[|ID_PREFIX|..])) else None
  }

  lemma {:induction false} UpToCommaPrefix(a: string, b: string)
    requires ',' !in a && |b| > 0 && b[0] == ','
    ensures UpToComma(a + b) == a
    decreases |a|
  {
    if a != [] {
      assert (a + b)[1..] == a[1..] + b;
      UpToCommaPrefix(a[1..], b);
    } else {
      assert a + b == b;
    }
  }
}
