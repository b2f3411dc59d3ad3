/** The image URL of a row: the first match of `/\(https:\/\/.*?\)/` in the
    `Images (from Artwork)` cell, with its two parentheses removed. */
module ImageUrl {
  import opened Values

  const Opener: string := "(https://"

  /** The characters that `.` does not match. */
  predicate IsLineTerminator(c: char) {
    c == '\n' || c == '\r' || c as int == 0x2028 || c as int == 0x2029
  }

  /** Where the lazy `.*?\)` stops scanning: at `)` (a match) or at a line terminator (no match). */
  predicate IsStop(c: char) {
    c == ')' || IsLineTerminator(c)
  }

  predicate NoStop(s: string) {
    forall k :: 0 <= k < |s| ==> !IsStop(s[k])
  }

  predicate OpensAt(s: string, i: nat) {
    i + |Opener| <= |s| && s[i..i + |Opener|] == Opener
  }

  /** The regular expression matches `s[i..j+1]`: `(https://` at `i`, the first `)` after it
      at `j`, and no line terminator in between. */
  ghost predicate MatchAt(s: string, i: nat, j: nat) {
    OpensAt(s, i) && i + |Opener| <= j < |s| && s[j] == ')'
    && forall k :: i + |Opener| <= k < j ==> !IsStop(s[k])
  }

  ghost predicate MatchesAt(s: string, i: nat) {
    exists j: nat :: MatchAt(s, i, j)
  }

  /** The first index at or after `k` that stops the lazy scan. */
  function StopFrom(s: string, k: nat): (r: Option<nat>)
    ensures r.Some? ==> k <= r.value < |s| && IsStop(s[r.value])
    ensures r.Some? ==> forall q :: k <= q < r.value ==> !IsStop(s[q])
    ensures r.None? ==> forall q :: k <= q < |s| ==> !IsStop(s[q])
    decreases |s| - k
  {
    if k >= |s| then None
    else if IsStop(s[k]) then Some(k)
    else StopFrom(s, k + 1)
  }

  /** The match attempted at position `i` alone, as the regular-expression engine tries it. */
  function TryAt(s: string, i: nat): (r: Option<nat>)
    ensures r.Some? ==> MatchAt(s, i, r.value)
    ensures r.None? ==> !MatchesAt(s, i)
  {
    if !OpensAt(s, i) then None
    else match StopFrom(s, i + |Opener|)
      case None => None
      case Some(j) =>
        if s[j] == ')' then Some(j)
        else
          assert forall j': nat :: MatchAt(s, i, j') ==> false by {
            forall j': nat | MatchAt(s, i, j') ensures false {
              if j' < j { assert IsStop(s[j']); }
            }
          }
          None
  }

  /** Leftmost match starting at or after `i`: the engine tries `i`, `i + 1`, ... in turn. */
  function FirstMatchFrom(s: string, i: nat): (r: Option<(nat, nat)>)
    ensures r.Some? ==> i <= r.value.0 && MatchAt(s, r.value.0, r.value.1)
    ensures r.Some? ==> forall i' :: i <= i' < r.value.0 ==> !MatchesAt(s, i')
    ensures r.None? ==> forall i' :: i <= i' ==> !MatchesAt(s, i')
    decreases |s| - i
  {
    if i + |Opener| > |s| then
      assert forall i' :: i <= i' ==> !MatchesAt(s, i') by {
        forall i' | i <= i' ensures !MatchesAt(s, i') { assert !OpensAt(s, i'); }
      }
      None
    else match TryAt(s, i)
      case Some(j) => Some((i, j))
      case None => FirstMatchFrom(s, i + 1)
  }

  /** What a match leaves once its parentheses are sliced off: `https://` and then no `)`
      and no line terminator. */
  lemma MatchedUrlShape(s: string, i: nat, j: nat)
    requires MatchAt(s, i, j)
    ensures |s[i + 1..j]| >= 8 && s[i + 1..j][..8] == "https://"
    ensures NoStop(s[i + 1..j])
  {
    var r := s[i + 1..j];
    assert s[i..i + 9] == Opener;
    assert r[..8] == s[i + 1..i + 9];
    forall k | 0 <= k < |r| ensures !IsStop(r[k]) {
      assert r[k] == s[i + 1 + k];
      if k < 8 {
        assert r[k] == Opener[k + 1];
      }
    }
  }

  /** `_originalImageUrl`: `''` when the cell is missing or empty or nothing matches, otherwise
      the leftmost match with its parentheses sliced off, which begins with `https://` and holds
      no `)` and no line terminator. */
  function ExtractImageUrl(cell: Option<string>): (r: string)
    ensures r == "" <==> cell.None? || forall i: nat :: !MatchesAt(cell.value, i)
    ensures r != "" ==> exists i: nat, j: nat :: MatchAt(cell.value, i, j) && r == cell.value[i + 1..j]
                          && forall i' :: 0 <= i' < i ==> !MatchesAt(cell.value, i')
    ensures r != "" ==> |r| >= 8 && r[..8] == "https://" && NoStop(r)
  {
    match cell
    case None => ""
    case Some(s) =>
      if s == "" then
        assert forall i: nat :: !MatchesAt(s, i) by {
          forall i: nat ensures !MatchesAt(s, i) { assert !OpensAt(s, i); }
        }
        ""
      else match FirstMatchFrom(s, 0)
        case None => ""
        case Some((i, j)) =>
          MatchedUrlShape(s, i, j);
          assert MatchesAt(s, i);
          s[i + 1..j]
  }
}
