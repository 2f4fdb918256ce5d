/** Marker tests on a torrent's tag string.
    The client reports a torrent's tags as one comma-separated string, and the
    program tests markers with Python's `in` on that string: a SUBSTRING test,
    not a membership test on the split list. This module keeps that meaning. */
module Tags {

  /** The removal-eligibility marker. */
  const MET_TAG: string := "met"

  /** The removal-decision marker. */
  const REMOVE_TAG: string := "remove"

  /** `sub` starts at position `i` of `s`. */
  ghost predicate OccursAt(sub: string, s: string, i: int)
  {
    0 <= i <= |s| - |sub| && s[i..i + |sub|] == sub
  }

  /** Python's `sub in s` for strings, computed by scanning `s` from the left. */
  function Occurs(sub: string, s: string): (r: bool)
    ensures r ==> |sub| <= |s|
    ensures sub == [] || sub == s ==> r
    decreases |s|
  {
    if |s| < |sub| then false
    else if s[..|sub|] == sub then true
    else Occurs(sub, s[1..])
  }

  /** The scan finds `sub` exactly when it occurs somewhere in `s`. */
  lemma {:induction false} OccursIff(sub: string, s: string)
    ensures Occurs(sub, s) <==> exists i :: OccursAt(sub, s, i)
    decreases |s|
  {
    if |s| < |sub| {
    } else if s[..|sub|] == sub {
      assert OccursAt(sub, s, 0);
    } else {
      OccursIff(sub, s[1..]);
      if exists i :: OccursAt(sub, s, i) {
        var i :| OccursAt(sub, s, i);
        assert i != 0;
        assert s[1..][i - 1..i - 1 + |sub|] == s[i..i + |sub|];
        assert OccursAt(sub, s[1..], i - 1);
      }
      if exists j :: OccursAt(sub, s[1..], j) {
        var j :| OccursAt(sub, s[1..], j);
        assert s[1..][j..j + |sub|] == s[j + 1..j + 1 + |sub|];
        assert OccursAt(sub, s, j + 1);
      }
    }
  }

  /** A marker occurs in any tag string that has it as a prefix, so a tag such
      as `metadata` passes the eligibility test as well as `met` does. */
  lemma {:induction false} PrefixMarkerOccurs(sub: string, s: string)
    requires |sub| <= |s| && s[..|sub|] == sub
    ensures Occurs(sub, s)
  {
  }
}
