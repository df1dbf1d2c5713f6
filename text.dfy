/**
 * `sanitizeString` and the file names built from it.
 *
 * The C# code removes every match of the character class `[^a-zA-Z0-9 ]`,
 * i.e. it keeps ASCII letters, ASCII digits and the space character and
 * drops everything else (punctuation, other whitespace, every non-ASCII
 * character).
 */
module Text {
  import opened Filtering

  /** A character the whitelist `[a-zA-Z0-9 ]` admits. */
  predicate IsSafeChar(c: char) {
    ('a' <= c <= 'z') || ('A' <= c <= 'Z') || ('0' <= c <= '9') || c == ' '
  }

  /** `Program.sanitizeString`: the whitelisted characters of `s`, in order. */
  function Sanitize(s: string): (r: string)
    ensures |r| <= |s|
    ensures forall i :: 0 <= i < |r| ==> IsSafeChar(r[i])
  {
    Filter(IsSafeChar, s)
  }

  /**
   * Every whitelisted character of the input is kept, in its original
   * order: the output lines up with the ascending list of ALL indices of
   * `s` holding a whitelisted character.
   */
  lemma SanitizeKeepsSafeInOrder(s: string)
    ensures var q := Positions(IsSafeChar, s, 0);
      |Sanitize(s)| == |q| &&
      (forall k :: 0 <= k < |q| ==> Sanitize(s)[k] == s[q[k]]) &&
      (forall k, l :: 0 <= k < l < |q| ==> q[k] < q[l]) &&
      (forall j :: 0 <= j < |s| && IsSafeChar(s[j]) ==> j in q)
  {
    FilterIsOrderedSelection(IsSafeChar, s);
  }

  /** A string is left unchanged exactly when it is already made of whitelisted characters. */
  lemma SanitizeFixedIff(s: string)
    ensures Sanitize(s) == s <==> forall i :: 0 <= i < |s| ==> IsSafeChar(s[i])
  {
    FilterUnchangedIff(IsSafeChar, s);
  }

  /** Sanitising an already sanitised string changes nothing. */
  lemma SanitizeIdempotent(s: string)
    ensures Sanitize(Sanitize(s)) == Sanitize(s)
  {
    FilterIdempotent(IsSafeChar, s);
  }

  /** A name such as "Test/Song!" loses its slash and its exclamation mark. */
  lemma SanitizeExample()
    ensures Sanitize("Test/Song!") == "TestSong"
  {
  }

  /**
   * Name of the per-score file inside a leaderboard directory:
   * `{playerId}-{sanitizeString(playerName)}.npy`.  The three parts can be
   * read back from the name.
   */
  function ReplayFileName(playerId: string, playerName: string): (f: string)
    ensures |f| == |playerId| + |Sanitize(playerName)| + 5
    ensures f[..|playerId| + 1] == playerId + "-"
    ensures f[|playerId| + 1..|f| - 4] == Sanitize(playerName)
    ensures f[|f| - 4..] == ".npy"
  {
    playerId + "-" + Sanitize(playerName) + ".npy"
  }

  /**
   * Sanitising is the only thing that keeps the names of one player id
   * apart: two names give the same file name exactly when they sanitise alike
   * (so a second name that sanitises like the first finds the file present
   * and is skipped).
   */
  lemma ReplayFileNameCollidesIff(playerId: string, name1: string, name2: string)
    ensures ReplayFileName(playerId, name1) == ReplayFileName(playerId, name2)
            <==> Sanitize(name1) == Sanitize(name2)
  {
  }
}
