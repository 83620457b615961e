/**
 * The search for the mirror-data marker in an archive stream
 * (`findStringInStream`): characters are read one at a time while a
 * count of matched key characters grows or falls back to zero. The
 * search reports only genuine occurrences, but a mismatch does not
 * re-examine the character that broke the match, so an occurrence that
 * starts inside a failed partial match is missed. A corrected search
 * that finds the first occurrence is given beside it.
 */
module XclBinSearch {
  import opened Wrappers

  /** `key` occurs in `stream` at position `i`. */
  predicate OccursAt(stream: seq<char>, key: seq<char>, i: nat)
  {
    i + |key| <= |stream| && stream[i..i + |key|] == key
  }

  /** Outcome of a search: the offset of a match, or nothing found. */
  datatype ScanResult = Found(offset: nat) | Missing

  /**
   * The search as written, from stream position `pos` with `matched`
   * key characters already matched just before it. A match completes
   * at the character that matches the last key character; a mismatch
   * resets the count and moves on to the next character.
   */
  function Scan(stream: seq<char>, key: seq<char>, pos: nat, matched: nat): (r: ScanResult)
    requires 0 < |key| && matched < |key| && matched <= pos <= |stream|
    requires stream[pos - matched..pos] == key[..matched]
    ensures r.Found? ==> OccursAt(stream, key, r.offset)
    decreases |stream| - pos
  {
    if pos == |stream| then Missing
    else if stream[pos] == key[matched] then
      assert stream[pos - matched..pos + 1] == key[..matched + 1] by {
        assert stream[pos - matched..pos + 1] == stream[pos - matched..pos] + [stream[pos]];
        assert key[..matched + 1] == key[..matched] + [key[matched]];
      }
      if matched + 1 == |key| then Found(pos + 1 - |key|)
      else Scan(stream, key, pos + 1, matched + 1)
    else Scan(stream, key, pos + 1, 0)
  }

  /**
   * `findStringInStream` as written: `foundOffset` counts the characters
   * read and, on a match, is moved back to where the match began. Every
   * reported offset is a genuine occurrence of the key. With no match the
   * whole stream has been read.
   */
  method FindStringInStream(stream: seq<char>, key: seq<char>) returns (found: bool, foundOffset: nat)
    requires 0 < |key|
    ensures found <==> Scan(stream, key, 0, 0).Found?
    ensures found ==> foundOffset == Scan(stream, key, 0, 0).offset && OccursAt(stream, key, foundOffset)
    ensures !found ==> foundOffset == |stream|
  {
    foundOffset := 0;
    var matchIndex := 0;
    var pos := 0;
    while pos < |stream|
      invariant matchIndex < |key| && matchIndex <= pos <= |stream|
      invariant foundOffset == pos
      invariant stream[pos - matchIndex..pos] == key[..matchIndex]
      invariant Scan(stream, key, pos, matchIndex) == Scan(stream, key, 0, 0)
      decreases |stream| - pos
    {
      var aChar := stream[pos];
      pos := pos + 1;
      foundOffset := foundOffset + 1;
      var expected := key[matchIndex];
      matchIndex := matchIndex + 1;
      if aChar == expected {
        assert stream[pos - matchIndex..pos] == key[..matchIndex] by {
          assert stream[pos - matchIndex..pos] == stream[pos - matchIndex..pos - 1] + [stream[pos - 1]];
          assert key[..matchIndex] == key[..matchIndex - 1] + [key[matchIndex - 1]];
        }
        if matchIndex == |key| {
          foundOffset := foundOffset - |key|;
          return true, foundOffset;
        }
      } else {
        matchIndex := 0;
      }
    }
    return false, foundOffset;
  }

  /**
   * The missed occurrence: in "aab" the key "ab" occurs at position 1,
   * but the second 'a' breaks the match begun by the first and is not
   * tried as a new start, so the search as written finds nothing.
   */
  lemma ScanMissesOverlap()
    ensures OccursAt("aab", "ab", 1)
    ensures Scan("aab", "ab", 0, 0) == Missing
  {
    assert "aab"[1..3] == "ab";
    assert Scan("aab", "ab", 0, 0) == Scan("aab", "ab", 1, 1);
    assert Scan("aab", "ab", 1, 1) == Scan("aab", "ab", 2, 0);
  }

  /** The first occurrence of `key` in `stream` at or after `from`. */
  function FirstOccurrence(stream: seq<char>, key: seq<char>, from: nat): (r: Option<nat>)
    ensures r.Some? ==>
      && from <= r.value && OccursAt(stream, key, r.value)
      && forall j :: from <= j < r.value ==> !OccursAt(stream, key, j)
    ensures r.None? ==> forall j :: from <= j ==> !OccursAt(stream, key, j)
    decreases |stream| - from
  {
    if from + |key| > |stream| then None
    else if OccursAt(stream, key, from) then Some(from)
    else FirstOccurrence(stream, key, from + 1)
  }

  /**
   * The corrected search: every start position is tried in turn, so the
   * key is found exactly when it occurs, and at its first occurrence.
   */
  method FindFirstInStream(stream: seq<char>, key: seq<char>) returns (found: bool, foundOffset: nat)
    requires 0 < |key|
    ensures found <==> exists i :: OccursAt(stream, key, i)
    ensures found ==>
      && OccursAt(stream, key, foundOffset)
      && forall j :: 0 <= j < foundOffset ==> !OccursAt(stream, key, j)
    ensures found ==> FirstOccurrence(stream, key, 0) == Some(foundOffset)
  {
    foundOffset := 0;
    while foundOffset + |key| <= |stream|
      invariant forall j :: 0 <= j < foundOffset ==> !OccursAt(stream, key, j)
      invariant FirstOccurrence(stream, key, foundOffset) == FirstOccurrence(stream, key, 0)
      decreases |stream| - foundOffset
    {
      if stream[foundOffset..foundOffset + |key|] == key {
        return true, foundOffset;
      }
      foundOffset := foundOffset + 1;
    }
    assert forall j :: foundOffset <= j ==> !OccursAt(stream, key, j);
    return false, foundOffset;
  }

  /**
   * Whatever the search as written reports, the corrected search finds
   * as well, at the same place or earlier.
   */
  lemma CorrectedFindsNoLater(stream: seq<char>, key: seq<char>)
    requires 0 < |key| && Scan(stream, key, 0, 0).Found?
    ensures FirstOccurrence(stream, key, 0).Some?
    ensures FirstOccurrence(stream, key, 0).value <= Scan(stream, key, 0, 0).offset
  {
    var o := Scan(stream, key, 0, 0).offset;
    assert OccursAt(stream, key, o);
  }

}
