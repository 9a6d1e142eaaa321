/**
 * The browser-side session test: split `document.cookie` on ';', take the
 * first piece that starts with "auth_token=" once trimmed, and accept when that
 * piece contains "valid_token" anywhere.
 */
module ClientAuth {
  import opened Wrappers
  import opened Strings
  import opened Sequences

  const AuthTokenPrefix := "auth_token="
  const ValidTokenText := "valid_token"

  /** The test passed to `find`: the trimmed piece starts with "auth_token=". */
  predicate IsAuthTokenPiece(piece: string)
  {
    StartsWith(Trim(piece), AuthTokenPrefix)
  }

  /** `isAuthenticated()`; `documentCookie` is None when there is no window. */
  function IsAuthenticated(documentCookie: Option<string>): bool
  {
    match documentCookie
    case None => false
    case Some(cookie) =>
      var piece := Find(Split(cookie, ';'), IsAuthTokenPiece);
      piece.Some? && Includes(piece.value, ValidTokenText)
  }

  /** Without a window the answer is false. */
  lemma NoWindowIsFalse()
    ensures !IsAuthenticated(None)
  {
  }

  /**
   * The answer is true exactly when some piece is an auth-token piece, no
   * earlier piece is one, and that piece contains the valid token text.
   */
  lemma DecidedByFirstAuthTokenPiece(cookie: string)
    ensures var pieces := Split(cookie, ';');
      IsAuthenticated(Some(cookie)) <==>
        exists k :: && 0 <= k < |pieces| && IsAuthTokenPiece(pieces[k])
                    && (forall j :: 0 <= j < k ==> !IsAuthTokenPiece(pieces[j]))
                    && Includes(pieces[k], ValidTokenText)
  {
    var pieces := Split(cookie, ';');
    var first := FirstIndex(pieces, IsAuthTokenPiece);
    if first.Some? {
      forall k | 0 <= k < |pieces| && IsAuthTokenPiece(pieces[k]) && (forall j :: 0 <= j < k ==> !IsAuthTokenPiece(pieces[j]))
        ensures k == first.value
      {
      }
    }
  }

  /** No auth-token piece means false. */
  lemma NoAuthTokenPieceIsFalse(cookie: string)
    requires forall k :: 0 <= k < |Split(cookie, ';')| ==> !IsAuthTokenPiece(Split(cookie, ';')[k])
    ensures !IsAuthenticated(Some(cookie))
  {
  }

  /** Containment, not equality: a token value that merely contains the valid token is accepted. */
  lemma ContainmentNotEquality()
    ensures IsAuthenticated(Some(AuthTokenPrefix + "x" + ValidTokenText))
  {
    var s := AuthTokenPrefix + "x" + ValidTokenText;
    assert ';' !in s;
    SplitWithoutSeparator(s, ';');
    assert Trim(s) == s by {
      assert s[0] == 'a' && s[|s| - 1] == 'n';
      assert s[0..] == s;
    }
    assert s[..|AuthTokenPrefix|] == AuthTokenPrefix;
    assert OccursAt(s, ValidTokenText, |AuthTokenPrefix| + 1) by {
      assert s[|AuthTokenPrefix| + 1..] == ValidTokenText;
    }
  }
}
