/**
 Greedy packing of a list of items into consecutive lines.

 Several parts of the server split a list over as many protocol lines as needed: MODE
 changes, numeric replies and CAP listings.  Each extends the current line while the next
 item fits and starts a new line when it does not.  This module states once what such a
 division is and proves that it never uses more lines than necessary.
 */
module Packing {

  /** The items of all lines, in order. */
  function Flatten<T>(lines: seq<seq<T>>): seq<T>
  {
    if lines == [] then [] else lines[0] + Flatten(lines[1..])
  }

  /** Every consecutive part of a line that fits also fits. */
  ghost predicate SegmentClosed<T(!new)>(fits: seq<T> -> bool)
  {
    forall s: seq<T>, i, j :: 0 <= i <= j <= |s| && fits(s) ==> fits(s[i..j])
  }

  ghost predicate AllFit<T>(fits: seq<T> -> bool, lines: seq<seq<T>>)
  {
    forall i :: 0 <= i < |lines| ==> fits(lines[i])
  }

  ghost predicate NoEmptyLine<T>(lines: seq<seq<T>>)
  {
    forall i :: 0 <= i < |lines| ==> lines[i] != []
  }

  /** A new line was started only because its first item did not fit on the line before it. */
  ghost predicate Maximal<T>(fits: seq<T> -> bool, lines: seq<seq<T>>)
    requires NoEmptyLine(lines)
  {
    forall i :: 0 <= i < |lines| - 1 ==> !fits(lines[i] + [lines[i + 1][0]])
  }

  lemma NothingIsGreedy<T>(fits: seq<T> -> bool)
    ensures Flatten<T>([]) == [] && Maximal(fits, [])
  {
  }

  /** A line in front of a greedy division, full enough that the division's first item does not fit on it. */
  lemma PrependLine<T>(fits: seq<T> -> bool, line: seq<T>, rest: seq<seq<T>>)
    requires line != [] && fits(line) && NoEmptyLine(rest) && AllFit(fits, rest) && Maximal(fits, rest)
    requires Flatten(rest) != [] ==> !fits(line + [Flatten(rest)[0]])
    ensures var lines := [line] + rest;
            NoEmptyLine(lines) && AllFit(fits, lines) && Maximal(fits, lines) && Flatten(lines) == line + Flatten(rest)
  {
    var lines := [line] + rest;
    assert lines[1..] == rest;
    if rest != [] {
      assert Flatten(rest)[0] == rest[0][0];
    }
    assert NoEmptyLine(lines);
    forall i | 0 <= i < |lines| - 1
      ensures !fits(lines[i] + [lines[i + 1][0]])
    {
      if i > 0 {
        assert lines[i] == rest[i - 1] && lines[i + 1] == rest[i];
        assert !fits(rest[i - 1] + [rest[i - 1 + 1][0]]);
      }
    }
  }

  lemma {:induction false} FlattenAppend<T>(lines: seq<seq<T>>, more: seq<seq<T>>)
    ensures Flatten(lines + more) == Flatten(lines) + Flatten(more)
  {
    if lines == [] {
      assert lines + more == more;
    } else {
      assert (lines + more)[1..] == lines[1..] + more;
      FlattenAppend(lines[1..], more);
    }
  }

  /** Every item of every line is an item of the flattened list, and the other way around. */
  lemma {:induction false} FlattenContains<T>(lines: seq<seq<T>>, item: T)
    ensures item in Flatten(lines) <==> exists i :: 0 <= i < |lines| && item in lines[i]
  {
    if lines != [] {
      FlattenContains(lines[1..], item);
      if item in lines[0] {
      } else if item in Flatten(lines) {
        var i :| 0 <= i < |lines[1..]| && item in lines[1..][i];
        assert item in lines[i + 1];
      }
      if i :| 0 < i < |lines| && item in lines[i] {
        assert item in lines[1..][i - 1];
      }
    }
  }

  /** If the first line stops short of a fitting line that starts no later, the next item would have fitted on it. */
  lemma NextItemWouldFit<T(!new)>(fits: seq<T> -> bool, lines: seq<seq<T>>, first: seq<T>, rest: seq<T>, k: nat)
    requires SegmentClosed(fits) && NoEmptyLine(lines) && |lines| > 1
    requires k <= |first| && fits(first) && Flatten(lines) == first[k..] + rest
    ensures |lines[0]| < |first| - k ==> fits(lines[0] + [lines[1][0]])
  {
    var g := lines[0];
    if |g| < |first| - k {
      assert lines[1..][1..] == lines[2..];
      assert Flatten(lines)[..|g| + 1] == g + [lines[1][0]];
      assert first[k..k + |g| + 1] == g + [lines[1][0]];
    }
  }

  /** The first greedy line reaches at least as far as a fitting line that starts no later. */
  lemma FirstLineReaches<T(!new)>(fits: seq<T> -> bool, greedy: seq<seq<T>>, first: seq<T>, rest: seq<T>, k: nat)
    requires SegmentClosed(fits) && NoEmptyLine(greedy) && Maximal(fits, greedy)
    requires greedy != [] && k <= |first| && fits(first)
    requires Flatten(greedy) == first[k..] + rest
    ensures |first| - k <= |greedy[0]|
  {
    if |greedy| > 1 {
      NextItemWouldFit(fits, greedy, first, rest, k);
      assert !fits(greedy[0] + [greedy[0 + 1][0]]);
    } else {
      assert greedy[1..] == [];
    }
  }

  /** Greedy packing of a suffix needs no more lines than any fitting division of the whole. */
  lemma {:induction false} GreedyStaysAhead<T(!new)>(fits: seq<T> -> bool, greedy: seq<seq<T>>, other: seq<seq<T>>, k: nat)
    requires SegmentClosed(fits) && NoEmptyLine(greedy) && Maximal(fits, greedy) && AllFit(fits, other)
    requires k <= |Flatten(other)| && Flatten(greedy) == Flatten(other)[k..]
    ensures |greedy| <= |other|
    decreases |other|
  {
    assert greedy != [] ==> |Flatten(greedy)| >= |greedy[0]| > 0;
    if greedy != [] {
      if other != [] {
        var d, rest := other[0], other[1..];
        assert AllFit(fits, rest) by {
          assert forall i :: 0 <= i < |rest| ==> rest[i] == other[i + 1];
        }
        if |d| <= k {
          assert Flatten(other)[k..] == Flatten(rest)[k - |d|..];
          GreedyStaysAhead(fits, greedy, rest, k - |d|);
        } else {
          assert Flatten(other)[k..] == d[k..] + Flatten(rest);
          FirstLineReaches(fits, greedy, d, Flatten(rest), k);
          var g, tail := greedy[0], greedy[1..];
          assert NoEmptyLine(tail) && Maximal(fits, tail) by {
            assert forall i :: 0 <= i < |tail| ==> tail[i] == greedy[i + 1];
          }
          assert Flatten(tail) == Flatten(greedy)[|g|..];
          assert Flatten(greedy)[|g|..] == Flatten(rest)[k + |g| - |d|..];
          GreedyStaysAhead(fits, tail, rest, k + |g| - |d|);
        }
      }
    }
  }

  /** No division of the same items into lines that fit uses fewer lines than the greedy one. */
  lemma GreedyIsOptimal<T(!new)>(fits: seq<T> -> bool, greedy: seq<seq<T>>, other: seq<seq<T>>)
    requires SegmentClosed(fits) && NoEmptyLine(greedy) && Maximal(fits, greedy) && AllFit(fits, other)
    requires Flatten(greedy) == Flatten(other)
    ensures |greedy| <= |other|
  {
    assert Flatten(other)[0..] == Flatten(other);
    GreedyStaysAhead(fits, greedy, other, 0);
  }
}
