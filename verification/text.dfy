/** The few Foundation string operations the scanner and the option parser
    rely on, over strings modelled as sequences of characters:
    `components(separatedBy:)` with a one-character separator,
    `replacingOccurrences(of:with: "")` and repeated removal of a leading
    character. */
module Text {

  /** Splits `s` at every occurrence of `sep`. Empty pieces are kept, so
      `"a,,b"` gives `["a", "", "b"]` and `""` gives `[""]`. */
  function Split(s: string, sep: char): (pieces: seq<string>)
    ensures |pieces| >= 1
    ensures forall i :: 0 <= i < |pieces| ==> sep !in pieces[i]
    decreases |s|
  {
    if |s| == 0 then [""]
    else
      var rest := Split(s[1..], sep);
      if s[0] == sep then [""] + rest
      else [[s[0]] + rest[0]] + rest[1..]
  }

  /** Concatenates `pieces`, putting `sep` between consecutive ones. */
  function Join(pieces: seq<string>, sep: char): string
  {
    if |pieces| == 0 then ""
    else if |pieces| == 1 then pieces[0]
    else pieces[0] + [sep] + Join(pieces[1..], sep)
  }

  /** Joining the pieces of a split with the separator gives back the input. */
  lemma {:induction false} JoinSplit(s: string, sep: char)
    ensures Join(Split(s, sep), sep) == s
    decreases |s|
  {
    if |s| > 0 {
      var rest := Split(s[1..], sep);
      JoinSplit(s[1..], sep);
      if s[0] == sep {
        assert Split(s, sep) == [""] + rest;
        assert ([""] + rest)[1..] == rest;
      } else {
        var pieces := [[s[0]] + rest[0]] + rest[1..];
        assert Split(s, sep) == pieces;
        if |rest| == 1 {
          assert Join(pieces, sep) == [s[0]] + rest[0];
        } else {
          assert pieces[1..] == rest[1..];
          assert Join(rest, sep) == rest[0] + [sep] + Join(rest[1..], sep);
          assert Join(pieces, sep) == [s[0]] + rest[0] + [sep] + Join(rest[1..], sep);
        }
      }
    }
  }

  /** Splitting a piece free of the separator, followed by more text, puts
      that piece at the head of the first resulting piece. */
  lemma {:induction false} SplitSeparatorFree(a: string, t: string, sep: char)
    requires sep !in a
    ensures Split(a + t, sep) == [a + Split(t, sep)[0]] + Split(t, sep)[1..]
    decreases |a|
  {
    if |a| > 0 {
      SplitSeparatorFree(a[1..], t, sep);
      assert (a + t)[1..] == a[1..] + t;
      assert [a[0]] + (a[1..] + Split(t, sep)[0]) == a + Split(t, sep)[0];
    } else {
      assert a + t == t;
      assert a + Split(t, sep)[0] == Split(t, sep)[0];
      assert Split(t, sep) == [Split(t, sep)[0]] + Split(t, sep)[1..];
    }
  }

  /** Conversely, splitting a join of separator-free pieces gives back the pieces. */
  lemma {:induction false} SplitJoin(pieces: seq<string>, sep: char)
    requires |pieces| >= 1
    requires forall i :: 0 <= i < |pieces| ==> sep !in pieces[i]
    ensures Split(Join(pieces, sep), sep) == pieces
    decreases |pieces|
  {
    if |pieces| == 1 {
      SplitSeparatorFree(pieces[0], "", sep);
      assert pieces[0] + "" == pieces[0];
    } else {
      var tail := Join(pieces[1..], sep);
      SplitJoin(pieces[1..], sep);
      SplitSeparatorFree(pieces[0], [sep] + tail, sep);
      assert pieces[0] + [sep] + tail == pieces[0] + ([sep] + tail);
      assert ([sep] + tail)[1..] == tail;
      assert Split([sep] + tail, sep) == [""] + pieces[1..];
      assert pieces[0] + "" == pieces[0];
      assert pieces == [pieces[0]] + pieces[1..];
    }
  }

  /** A trailing separator ends the split with an empty piece. */
  lemma {:induction false} SplitTrailingSeparator(s: string, sep: char)
    ensures var pieces := Split(s + [sep], sep);
            |pieces| >= 2 && pieces[|pieces| - 1] == ""
    decreases |s|
  {
    if |s| == 0 {
      assert s + [sep] == [sep] && [sep][1..] == "";
      assert Split([sep], sep) == [""] + Split("", sep);
    } else {
      SplitTrailingSeparator(s[1..], sep);
      assert (s + [sep])[1..] == s[1..] + [sep];
    }
  }

  /** Removes `c` from the front of `s` for as long as `s` starts with it. */
  function StripLeading(s: string, c: char): (r: string)
    ensures |r| <= |s| && r == s[|s| - |r|..]
    ensures forall i :: 0 <= i < |s| - |r| ==> s[i] == c
    ensures |r| == 0 || r[0] != c
    decreases |s|
  {
    if |s| > 0 && s[0] == c then StripLeading(s[1..], c) else s
  }

  /** `p` occurs in `s` starting at index `i`. */
  predicate OccursAt(s: string, p: string, i: int)
  {
    0 <= i && i + |p| <= |s| && s[i..i + |p|] == p
  }

  /** An occurrence in a suffix of `s` is an occurrence in `s`, shifted. */
  lemma OccursInSuffix(s: string, p: string, k: nat, i: int)
    requires k <= |s| && i >= k
    ensures OccursAt(s, p, i) <==> OccursAt(s[k..], p, i - k)
  {
    if i + |p| <= |s| {
      assert s[k..][i - k..i - k + |p|] == s[i..i + |p|];
    }
  }

  /** Foundation's `replacingOccurrences(of: p, with: "")`: scans from the
      left and deletes every non-overlapping occurrence of `p`, resuming
      after each one. An empty `p` is never found, so nothing changes. */
  function RemoveOccurrences(s: string, p: string): (r: string)
    ensures |r| <= |s|
    decreases |s|
  {
    if |p| == 0 || |s| == 0 then s
    else if OccursAt(s, p, 0) then RemoveOccurrences(s[|p|..], p)
    else [s[0]] + RemoveOccurrences(s[1..], p)
  }

  /** An occurrence at the front is deleted and the scan resumes after it. */
  lemma RemoveLeadingOccurrence(s: string, p: string)
    requires |p| > 0 && OccursAt(s, p, 0)
    ensures RemoveOccurrences(s, p) == RemoveOccurrences(s[|p|..], p)
  {
  }

  /** A first character that starts no occurrence is kept. */
  lemma RemoveKeepsFront(s: string, p: string)
    requires |p| > 0 && |s| > 0 && !OccursAt(s, p, 0)
    ensures RemoveOccurrences(s, p) == [s[0]] + RemoveOccurrences(s[1..], p)
  {
  }

  /** The leftmost occurrence is the one removed: everything before it is
      kept, and the scan resumes right after it. Where occurrences overlap,
      this is what decides which of them goes. */
  lemma {:induction false} RemoveFirstOccurrence(s: string, p: string, k: nat)
    requires |p| > 0 && OccursAt(s, p, k)
    requires forall j :: 0 <= j < k ==> !OccursAt(s, p, j)
    ensures RemoveOccurrences(s, p) == s[..k] + RemoveOccurrences(s[k + |p|..], p)
    decreases k
  {
    if k == 0 {
      RemoveLeadingOccurrence(s, p);
      assert s[..0] == "";
    } else {
      var after := RemoveOccurrences(s[k + |p|..], p);
      ShiftFirstOccurrence(s, p, k);
      RemoveFirstOccurrence(s[1..], p, k - 1);
      RemoveKeepsFront(s, p);
      TailSlices(s, k, |p|);
      assert RemoveOccurrences(s, p) == [s[0]] + (s[1..][..k - 1] + after);
      ConsAssociates(s[0], s[1..][..k - 1], after);
    }
  }

  lemma ConsAssociates(c: char, a: string, b: string)
    ensures [c] + (a + b) == ([c] + a) + b
  {
  }

  /** Slicing the tail of `s` is slicing `s` one place further on. */
  lemma TailSlices(s: string, k: nat, d: nat)
    requires 0 < k && k + d <= |s|
    ensures s[1..][k - 1 + d..] == s[k + d..]
    ensures [s[0]] + s[1..][..k - 1] == s[..k]
  {
  }

  /** Dropping the first character shifts the first occurrence one place left. */
  lemma ShiftFirstOccurrence(s: string, p: string, k: nat)
    requires 0 < k && OccursAt(s, p, k)
    requires forall j :: 0 <= j < k ==> !OccursAt(s, p, j)
    ensures !OccursAt(s, p, 0)
    ensures OccursAt(s[1..], p, k - 1)
    ensures forall j :: 0 <= j < k - 1 ==> !OccursAt(s[1..], p, j)
  {
    OccursInSuffix(s, p, 1, k);
    forall j | 0 <= j < k - 1
      ensures !OccursAt(s[1..], p, j)
    {
      OccursInSuffix(s, p, 1, j + 1);
    }
  }

  /** With overlapping occurrences only the leftmost goes: `"aaa"` loses its
      first `"aa"` and keeps the last `"a"`. */
  lemma OverlapRemovesLeftmost()
    ensures RemoveOccurrences("aaa", "aa") == "a"
  {
    assert "aaa"[..2] == "aa" && "aaa"[2..] == "a";
    RemoveFirstOccurrence("aaa", "aa", 0);
    assert !OccursAt("a", "aa", 0);
    assert "a"[1..] == "";
  }

  /** Which characters of `s` `RemoveOccurrences` deletes: a block of
      `|p|` erased positions for each occurrence it removes. */
  function ErasedPositions(s: string, p: string): (erased: seq<bool>)
    requires |p| > 0
    ensures |erased| == |s|
    ensures forall i :: 0 <= i < |s| && OccursAt(s, p, i) ==> erased[i]
    decreases |s|
  {
    if |s| == 0 then []
    else if OccursAt(s, p, 0) then
      var rest := ErasedPositions(s[|p|..], p);
      var erased := seq(|p|, _ => true) + rest;
      MarksShift(s, p, |p|, rest, erased);
      erased
    else
      var rest := ErasedPositions(s[1..], p);
      var erased := [false] + rest;
      MarksShift(s, p, 1, rest, erased);
      erased
  }

  /** Flags that mark every occurrence in `s[k..]`, placed after `k` leading
      flags that mark every occurrence starting before `k`, mark every
      occurrence in `s`. */
  lemma MarksShift(s: string, p: string, k: nat, rest: seq<bool>, erased: seq<bool>)
    requires 0 < k <= |s| && |erased| == |s| && |rest| == |s| - k && erased[k..] == rest
    requires forall i :: 0 <= i < |rest| && OccursAt(s[k..], p, i) ==> rest[i]
    requires forall i :: 0 <= i < k && OccursAt(s, p, i) ==> erased[i]
    ensures forall i :: 0 <= i < |s| && OccursAt(s, p, i) ==> erased[i]
  {
    forall i | k <= i < |s| && OccursAt(s, p, i)
      ensures erased[i]
    {
      OccursInSuffix(s, p, k, i);
      assert erased[i] == erased[k..][i - k];
    }
  }

  /** Position `i` of `s` lies inside some occurrence of `p`. */
  predicate InsideOccurrence(s: string, p: string, i: int)
  {
    exists j :: 0 <= j <= i < j + |p| && OccursAt(s, p, j)
  }

  /** Conversely, nothing but occurrences is erased: every erased character
      lies inside an occurrence of `p` in `s`. */
  lemma {:induction false} ErasedLieInOccurrences(s: string, p: string)
    requires |p| > 0
    ensures forall i :: 0 <= i < |s| && ErasedPositions(s, p)[i] ==> InsideOccurrence(s, p, i)
    decreases |s|
  {
    if |s| > 0 {
      var erased := ErasedPositions(s, p);
      if OccursAt(s, p, 0) {
        var rest := ErasedPositions(s[|p|..], p);
        assert erased == seq(|p|, _ => true) + rest;
        ErasedLieInOccurrences(s[|p|..], p);
        forall i | 0 <= i < |p|
          ensures InsideOccurrence(s, p, i)
        {
          assert OccursAt(s, p, 0);
        }
        CoverShift(s, p, |p|, rest, erased);
      } else {
        var rest := ErasedPositions(s[1..], p);
        assert erased == [false] + rest;
        ErasedLieInOccurrences(s[1..], p);
        CoverShift(s, p, 1, rest, erased);
      }
    }
  }

  /** The converse of `MarksShift`: if the flags on `s[k..]` and the `k`
      leading flags only ever mark characters inside occurrences, so do all
      flags on `s`. */
  lemma CoverShift(s: string, p: string, k: nat, rest: seq<bool>, erased: seq<bool>)
    requires 0 < k <= |s| && |erased| == |s| && |rest| == |s| - k && erased[k..] == rest
    requires forall i :: 0 <= i < |rest| && rest[i] ==> InsideOccurrence(s[k..], p, i)
    requires forall i :: 0 <= i < k && erased[i] ==> InsideOccurrence(s, p, i)
    ensures forall i :: 0 <= i < |s| && erased[i] ==> InsideOccurrence(s, p, i)
  {
    forall i | k <= i < |s| && erased[i]
      ensures InsideOccurrence(s, p, i)
    {
      assert rest[i - k] == erased[i];
      var j :| 0 <= j <= i - k < j + |p| && OccursAt(s[k..], p, j);
      OccursInSuffix(s, p, k, j + k);
      assert OccursAt(s, p, j + k);
    }
  }

  /** The characters of `s` at the positions `erased` leaves alone, in order. */
  function Kept(s: string, erased: seq<bool>): string
    requires |erased| == |s|
    decreases |s|
  {
    if |s| == 0 then ""
    else (if erased[0] then "" else [s[0]]) + Kept(s[1..], erased[1..])
  }

  /** A prefix of erased positions contributes nothing. */
  lemma {:induction false} KeptAfterErasedPrefix(s: string, erased: seq<bool>, k: nat)
    requires |erased| == |s| && k <= |s|
    requires forall i :: 0 <= i < k ==> erased[i]
    ensures Kept(s, erased) == Kept(s[k..], erased[k..])
    decreases k
  {
    if k > 0 {
      KeptAfterErasedPrefix(s[1..], erased[1..], k - 1);
      assert s[1..][k - 1..] == s[k..];
      assert erased[1..][k - 1..] == erased[k..];
    }
  }

  /** The result of removing occurrences is exactly the characters that are
      not erased; together with `ErasedPositions`' contract, no occurrence of
      `p` present in `s` survives intact. */
  lemma {:induction false} RemoveOccurrencesKeepsUnerased(s: string, p: string)
    requires |p| > 0
    ensures RemoveOccurrences(s, p) == Kept(s, ErasedPositions(s, p))
    decreases |s|
  {
    if |s| > 0 {
      if OccursAt(s, p, 0) {
        var rest := ErasedPositions(s[|p|..], p);
        var erased := seq(|p|, _ => true) + rest;
        assert ErasedPositions(s, p) == erased;
        RemoveOccurrencesKeepsUnerased(s[|p|..], p);
        KeptAfterErasedPrefix(s, erased, |p|);
        assert erased[|p|..] == rest;
      } else {
        RemoveOccurrencesKeepsUnerased(s[1..], p);
        var erased := [false] + ErasedPositions(s[1..], p);
        assert ErasedPositions(s, p) == erased;
        assert erased[1..] == ErasedPositions(s[1..], p);
      }
    }
  }

  /** With no occurrence of `p` in `s`, removal changes nothing. */
  lemma {:induction false} RemoveAbsent(s: string, p: string)
    requires forall i :: 0 <= i < |s| ==> !OccursAt(s, p, i)
    ensures RemoveOccurrences(s, p) == s
    decreases |s|
  {
    if |p| > 0 && |s| > 0 {
      assert !OccursAt(s, p, 0);
      forall i | 0 <= i < |s| - 1
        ensures !OccursAt(s[1..], p, i)
      {
        OccursInSuffix(s, p, 1, i + 1);
      }
      RemoveAbsent(s[1..], p);
      assert s == [s[0]] + s[1..];
    }
  }

  /** A pattern with a character `s` lacks never occurs in `s`. */
  lemma AbsentCharacterMeansNoOccurrence(s: string, p: string, k: nat)
    requires k < |p| && p[k] !in s
    ensures forall i :: 0 <= i < |s| ==> !OccursAt(s, p, i)
  {
    forall i | 0 <= i < |s|
      ensures !OccursAt(s, p, i)
    {
      if i + |p| <= |s| {
        assert s[i..i + |p|][k] == s[i + k];
      }
    }
  }

  /** Removal is not idempotent: deleting an occurrence can join the text
      around it into a new occurrence, which the single scan leaves in place. */
  lemma RemovalCanFormNewOccurrence()
    ensures RemoveOccurrences("aabb", "ab") == "ab"
    ensures OccursAt(RemoveOccurrences("aabb", "ab"), "ab", 0)
  {
    assert "aabb"[0..2][1] != "ab"[1];
    assert "aabb"[1..] == "abb";
    assert OccursAt("abb", "ab", 0);
    assert "abb"[2..] == "b";
    assert !OccursAt("b", "ab", 0);
    assert "b"[1..] == "";
  }
}
