/** Shared vocabulary of the model: nullable values, identifiers, clock
    readings, Java's 32-bit `int`, request outcomes and decimal text. */
module Common {

  /** A Java reference that may be null. */
  datatype Option<+T> = None | Some(value: T) {
    function GetOr(default: T): T {
      match this
      case Some(v) => v
      case None => default
    }
  }

  /** Database identity values (generated, never reused). */
  type Id = nat

  /** A reading of `LocalDateTime.now()`; the model takes it as a parameter. */
  type Time = nat

  /** Java's `int` (and the unboxed value of an `Integer`). */
  newtype Int32 = x: int | -0x8000_0000 <= x < 0x8000_0000

  const Int32Max: Int32 := 0x7fff_ffff
  const Int32Min: Int32 := -0x8000_0000

  /** `x + 1` on a Java `int`: two's-complement wrap-around at the top. */
  function Int32Inc(x: Int32): (r: Int32)
    ensures r as int == (x as int + 1 + 0x8000_0000) % 0x1_0000_0000 - 0x8000_0000
    ensures x < Int32Max ==> r as int == x as int + 1
  {
    if x == Int32Max then Int32Min else x + 1
  }

  /** Why a request ended in an exception. */
  datatype Failure =
    | DocumentNotFound    // "Document not found"
    | UserNotFound        // "User not found"
    | VersionNotFound     // "Version not found"
    | FileNotFound        // "File not found"
    | RoleNotFound        // "Error: Role is not found."
    | NonUniqueResult     // a single-result finder met two rows
    | NullVisibility      // unboxing a null `isPublic`
    | StorageError        // an IOException from the blob store
    | DanglingReference   // a lazily loaded owner or document whose row is gone

  /** Why a request was answered with a rejection body. */
  datatype Rejection =
    | AccessDenied
    | NotOwner                // "Only document owner can invite collaborators"
    | AlreadyCollaborator     // "User is already a collaborator"
    | ForeignVersion          // "Version does not belong to this document"
    | EmptyUpload             // "Please select a file to upload"
    | PasswordTooShort
    | PasswordTooLong
    | UsernameTaken
    | EmailInUse

  /** The outcome of a REST request.
      `BadRequest` is status 400, `Forbidden` 403, `NotFound` 404;
      `ServerError` is a 500 the controller builds itself from a caught
      exception, `Thrown` an exception that leaves the controller. */
  datatype Reply<+T> =
    | Ok(value: T)
    | BadRequest(rejection: Rejection)
    | Forbidden
    | NotFound
    | ServerError(failure: Failure)
    | Thrown(failure: Failure)

  /** The outcome of a realtime message: handled, silently dropped, or
      aborted by an exception (the sender sees nothing either way). */
  datatype HandlerOutcome = Handled | Dropped | Aborted(failure: Failure)

  /** Decimal digit `d` as a character. */
  function DigitChar(d: nat): (c: char)
    requires d < 10
    ensures '0' <= c <= '9'
    ensures c as int - '0' as int == d
  {
    ('0' as int + d) as char
  }

  /** `Long.toString` of a non-negative value. */
  function Decimal(n: nat): (s: string)
    ensures 1 <= |s|
    ensures forall i :: 0 <= i < |s| ==> '0' <= s[i] <= '9'
    ensures n < 10 <==> |s| == 1
  {
    if n < 10 then [DigitChar(n)] else Decimal(n / 10) + [DigitChar(n % 10)]
  }

  /** Different numbers print differently. */
  lemma {:induction false} DecimalInjective(n: nat, m: nat)
    requires Decimal(n) == Decimal(m)
    ensures n == m
  {
    if n >= 10 && m >= 10 {
      var s, t := Decimal(n), Decimal(m);
      assert s[|s| - 1] == DigitChar(n % 10);
      assert t[|t| - 1] == DigitChar(m % 10);
      assert n % 10 == m % 10;
      assert s[..|s| - 1] == Decimal(n / 10);
      assert t[..|t| - 1] == Decimal(m / 10);
      DecimalInjective(n / 10, m / 10);
    } else if n < 10 && m < 10 {
      assert Decimal(n)[0] == DigitChar(n);
      assert Decimal(m)[0] == DigitChar(m);
    }
  }

  /** `s` starts with `p`. */
  predicate IsPrefix(p: string, s: string) {
    |p| <= |s| && s[..|p|] == p
  }

  /** `String.contains`: `k` occurs somewhere in `s` as a contiguous block. */
  predicate Contains(s: string, k: string)
    decreases |s|
  {
    IsPrefix(k, s) || (|s| > 0 && Contains(s[1..], k))
  }

  /** `k` occurs in `s` starting at position `i`. */
  predicate OccursAt(s: string, k: string, i: int) {
    0 <= i <= |s| - |k| && s[i..i + |k|] == k
  }

  /** The characterisation of `Contains` by positions. */
  lemma {:induction false} ContainsAt(s: string, k: string)
    ensures Contains(s, k) <==> exists i :: OccursAt(s, k, i)
    decreases |s|
  {
    if IsPrefix(k, s) {
      assert OccursAt(s, k, 0);
    } else if |s| > 0 {
      ContainsAt(s[1..], k);
      if exists i :: OccursAt(s, k, i) {
        var i :| OccursAt(s, k, i);
        assert i != 0;
        assert OccursAt(s[1..], k, i - 1);
      }
      if Contains(s[1..], k) {
        var j :| OccursAt(s[1..], k, j);
        assert OccursAt(s, k, j + 1);
      }
    } else {
      assert forall i :: !OccursAt(s, k, i);
    }
  }
}
