/**
 * Shared vocabulary: the enum constants of the application, identifiers,
 * the status-code-and-message replies the controllers and middlewares send,
 * and the "last error wins" pattern several validators follow.
 */
module Common {
  import opened Js

  const BORROWED: string := "BORROWED"
  const RETURNED: string := "RETURNED"
  const ADMIN: string := "ADMIN"
  const MEMBER: string := "MEMBER"

  /** A document id, as the hexadecimal string a client sends. */
  type Id = string

  /** What a handler sends back: an HTTP status code and the message of the body. */
  datatype Reply = Reply(status: int, message: string)

  /** What a middleware decides: pass control on (`next()`) or answer at once. */
  datatype Gate = Next | Stop(reply: Reply)

  /** The message of any exception that the handlers turn into a 500 reply. */
  const CastFailed: string := "Cast to ObjectId failed"

  predicate IsHexDigit(c: char) {
    DigitValue(c) < 16
  }

  /**
   * Mongoose's `isObjectIdOrHexString` on a value sent in a request: a string
   * of exactly 24 hexadecimal digits.
   */
  predicate IsObjectIdHex(s: string) {
    |s| == 24 && forall i | 0 <= i < |s| :: IsHexDigit(s[i])
  }

  predicate IsObjectIdOrHexString(v: Value) {
    v.Str? && IsObjectIdHex(v.s)
  }

  /** Hex digits keep their value under ASCII lower-casing. */
  lemma LowerKeepsDigit(c: char)
    ensures DigitValue(LowerChar(c)) == DigitValue(c)
  {
  }

  /**
   * The ObjectId a hexadecimal id casts to, written as its canonical
   * lower-case hex string: ids that differ only in the case of their hex
   * letters cast to the same ObjectId, and a stored ObjectId is always
   * written back in lower case.
   */
  function Canon(s: string): (c: Id)
    ensures |c| == |s| && IsLower(c)
    ensures IsObjectIdHex(c) <==> IsObjectIdHex(s)
  {
    forall i | 0 <= i < |s| ensures DigitValue(ToLower(s)[i]) == DigitValue(s[i]) {
      LowerKeepsDigit(s[i]);
    }
    ToLower(s)
  }

  /** The id of a stored document: 24 lower-case hex digits. */
  predicate IsCanonicalId(s: string) {
    IsObjectIdHex(s) && IsLower(s)
  }

  /** Casting is insensitive to the case of the hex letters, and a stored id casts to itself. */
  lemma CanonCases(s: string)
    ensures IsObjectIdHex(s) ==> IsCanonicalId(Canon(s))
    ensures Canon(Canon(s)) == Canon(s)
    ensures Canon(ToUpper(s)) == Canon(s)
    ensures IsCanonicalId(s) ==> Canon(s) == s
  {
    LowerOfLower(Canon(s));
    if IsCanonicalId(s) {
      LowerOfLower(s);
    }
  }

  /**
   * The value of an `errMsg` variable that a sequence of checks overwrites
   * whenever one of them fails: the last failure, or null.
   */
  function LastError(errs: seq<Option<string>>): (r: Option<string>)
    ensures r.None? <==> forall i | 0 <= i < |errs| :: errs[i].None?
  {
    if errs == [] then None
    else if errs[|errs| - 1].Some? then errs[|errs| - 1]
    else
      var init := errs[..|errs| - 1];
      assert forall i | 0 <= i < |init| :: init[i] == errs[i];
      LastError(init)
  }

  /** The message is one of the failures, and every later check passed. */
  lemma {:induction false} LastErrorIsLast(errs: seq<Option<string>>)
    requires LastError(errs).Some?
    ensures exists i | 0 <= i < |errs| :: errs[i] == LastError(errs) && forall j | i < j < |errs| :: errs[j].None?
  {
    var n := |errs|;
    if errs[n - 1].Some? {
      assert errs[n - 1] == LastError(errs);
    } else {
      var init := errs[..n - 1];
      assert LastError(errs) == LastError(init);
      LastErrorIsLast(init);
      var i :| 0 <= i < |init| && init[i] == LastError(init) && forall j | i < j < |init| :: init[j].None?;
      assert errs[i] == init[i];
      forall j | i < j < n
        ensures errs[j].None?
      {
        if j < n - 1 {
          assert errs[j] == init[j];
        }
      }
    }
  }

  /** Checking one more item: its failure, if any, becomes the last one. */
  lemma LastErrorSnoc(errs: seq<Option<string>>, e: Option<string>)
    ensures LastError(errs + [e]) == if e.Some? then e else LastError(errs)
  {
    assert (errs + [e])[..|errs|] == errs;
  }

  /** Of two checks, the second one's failure wins. */
  lemma LastErrorPair(a: Option<string>, b: Option<string>)
    ensures LastError([a, b]) == if b.Some? then b else a
  {
    LastErrorSnoc([a], b);
    LastErrorSnoc([], a);
    assert [a] + [b] == [a, b];
  }

  /** `a || b` on two possibly-null messages (messages are never empty). */
  function OrElse(a: Option<string>, b: Option<string>): Option<string> {
    if a.Some? then a else b
  }
}
