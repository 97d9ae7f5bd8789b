/** Identifiers of tasks, notes and frames, and the prefix matching that
    resolves a short identifier typed by the user (src/forest/types.rs and the
    `id LIKE ? || '%'` queries). */
module Types {

  /** The 16 symbols a generated identifier is drawn from. */
  const UidAlphabet: string := "1234567890abcdef"

  /** Length of a generated identifier. */
  const UidLength: nat := 32

  /** Length of the short form shown to the user. */
  const ShortLength: nat := 7

  /** `c` is one of the alphabet's symbols: a decimal digit or a lower-case
      letter from a to f. */
  predicate HexDigit(c: char) {
    '0' <= c <= '9' || 'a' <= c <= 'f'
  }

  /** Every character of `s` is drawn from the alphabet. */
  predicate AllHex(s: string) {
    |s| == 0 || (HexDigit(s[0]) && AllHex(s[1..]))
  }

  /** The alphabet holds exactly the hexadecimal digits. */
  lemma AlphabetIsHex(c: char)
    ensures c in UidAlphabet <==> HexDigit(c)
  {
  }

  /** A well-formed identifier, as the random generator produces it. */
  predicate IsUid(s: string) {
    |s| == UidLength && AllHex(s)
  }

  /** The short form of an identifier: its first seven characters. */
  function Short(id: string): (r: string)
    ensures |id| >= ShortLength ==> |r| == ShortLength
    ensures r <= id
  {
    if |id| <= ShortLength then id else id[..ShortLength]
  }

  /** ASCII lower-casing, the folding SQLite's LIKE applies. */
  function Lower(c: char): (r: char)
    ensures 'A' <= c <= 'Z' ==> 'a' <= r <= 'z'
    ensures !('A' <= c <= 'Z') ==> r == c
  {
    if 'A' <= c <= 'Z' then (c as int - 'A' as int + 'a' as int) as char else c
  }

  /** One pattern character against one text character: `_` matches anything,
      letters match regardless of ASCII case. */
  predicate CharLike(p: char, c: char) {
    p == '_' || Lower(p) == Lower(c)
  }

  /** `s LIKE prefix || '%'`: `s` starts with something that matches `prefix`. */
  predicate LikePrefix(prefix: string, s: string) {
    |prefix| <= |s| && forall i :: 0 <= i < |prefix| ==> CharLike(prefix[i], s[i])
  }

  /** Every identifier matches its own short form. */
  lemma ShortMatches(id: string)
    ensures LikePrefix(Short(id), id)
  {
  }

  /** Matching a full identifier against well-formed identifiers is plain
      equality, so `id LIKE uid || '%'` selects exactly the row `uid`. */
  lemma LikeFullUid(uid: string, id: string)
    requires IsUid(uid) && IsUid(id)
    ensures LikePrefix(uid, id) <==> uid == id
  {
    HexLike(uid, id);
  }

  /** Two hexadecimal strings of one length are alike exactly when equal:
      the alphabet has no upper-case letter and no `_`. */
  lemma {:induction false} HexLike(a: string, b: string)
    requires AllHex(a) && AllHex(b) && |a| == |b|
    ensures LikePrefix(a, b) <==> a == b
  {
    if |a| > 0 {
      HexLike(a[1..], b[1..]);
      if LikePrefix(a, b) {
        assert CharLike(a[0], b[0]);
        assert LikePrefix(a[1..], b[1..]) by {
          forall i | 0 <= i < |a| - 1
            ensures CharLike(a[1..][i], b[1..][i])
          {
            assert CharLike(a[i + 1], b[i + 1]);
          }
        }
        assert a == [a[0]] + a[1..] && b == [b[0]] + b[1..];
      }
    }
  }
}
