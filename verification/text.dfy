/** The JavaScript string operations the application relies on, over Dafny
    strings (`seq<char>`): substring search (`includes`), first-occurrence
    replacement (`replace` with a string pattern), `split` on a one-character
    separator, ASCII case folding and UTF-16 length. */
module Text {
  import opened Wrappers

  // ---------------------------------------------------------------------------
  // Substrings
  // ---------------------------------------------------------------------------

  /** `t` occurs in `s` starting at index `i`. */
  ghost predicate OccursAt(s: string, t: string, i: int) {
    0 <= i && i + |t| <= |s| && s[i..i + |t|] == t
  }

  /** `s.includes(t)`: the empty string is found everywhere. */
  function Contains(s: string, t: string): bool
    decreases |s|
  {
    t <= s || (|s| > 0 && Contains(s[1..], t))
  }

  /** `includes` finds every occurrence. */
  lemma {:induction false} OccursContains(s: string, t: string, i: int)
    requires OccursAt(s, t, i)
    ensures Contains(s, t)
    decreases i
  {
    if i == 0 {
      assert s[..|t|] == t;
    } else {
      assert s[1..][i - 1..i - 1 + |t|] == s[i..i + |t|];
      OccursContains(s[1..], t, i - 1);
    }
  }

  /** What `includes` finds is an occurrence. */
  lemma {:induction false} ContainsOccurs(s: string, t: string) returns (i: int)
    requires Contains(s, t)
    ensures OccursAt(s, t, i)
    decreases |s|
  {
    if t <= s {
      i := 0;
      assert s[0..|t|] == t;
    } else {
      var j := ContainsOccurs(s[1..], t);
      assert s[1..][j..j + |t|] == s[j + 1..j + 1 + |t|];
      i := j + 1;
    }
  }

  lemma ContainsIff(s: string, t: string)
    ensures Contains(s, t) <==> exists i :: OccursAt(s, t, i)
  {
    forall i | OccursAt(s, t, i) ensures Contains(s, t) {
      OccursContains(s, t, i);
    }
    if Contains(s, t) {
      var i := ContainsOccurs(s, t);
    }
  }

  /** Index of the first occurrence of `t` in `s`, searching from `from`. */
  function IndexOfFrom(s: string, t: string, from: nat): (r: Option<nat>)
    requires from <= |s|
    ensures r.Some? ==> from <= r.value && OccursAt(s, t, r.value)
    ensures r.Some? ==> forall j :: from <= j < r.value ==> !OccursAt(s, t, j)
    ensures r.None? ==> forall j :: from <= j ==> !OccursAt(s, t, j)
    decreases |s| - from
  {
    if from + |t| <= |s| && s[from..from + |t|] == t then Some(from)
    else if from == |s| then None
    else IndexOfFrom(s, t, from + 1)
  }

  /** `s.replace(t, r)` with a string pattern: only the FIRST occurrence of
      `t` is replaced; when `t` does not occur, `s` is returned unchanged. */
  function ReplaceFirst(s: string, t: string, r: string): string {
    match IndexOfFrom(s, t, 0)
    case None => s
    case Some(i) => s[..i] + r + s[i + |t|..]
  }

  lemma ReplaceFirstSpec(s: string, t: string, r: string, pre: string, post: string)
    requires s == pre + t + post
    requires forall j :: 0 <= j < |pre| ==> !OccursAt(s, t, j)
    ensures ReplaceFirst(s, t, r) == pre + r + post
  {
    assert OccursAt(s, t, |pre|) by {
      assert s[|pre|..|pre| + |t|] == t;
    }
    var i := IndexOfFrom(s, t, 0).value;
    assert i == |pre|;
    assert s[..i] == pre;
    assert s[i + |t|..] == post;
  }

  // ---------------------------------------------------------------------------
  // split / join on a single character
  // ---------------------------------------------------------------------------

  /** `s.split(sep)` for a one-character separator: always at least one part. */
  function Split(s: string, sep: char): (parts: seq<string>)
    ensures |parts| >= 1
    decreases |s|
  {
    if |s| == 0 then [""]
    else
      var rest := Split(s[1..], sep);
      if s[0] == sep then [""] + rest
      else [[s[0]] + rest[0]] + rest[1..]
  }

  /** `parts.join(sep)`. */
  function Join(parts: seq<string>, sep: char): string
    requires |parts| >= 1
    decreases |parts|
  {
    if |parts| == 1 then parts[0] else parts[0] + [sep] + Join(parts[1..], sep)
  }

  /** `s.split(sep).pop()`: the text after the last separator, or all of `s`. */
  function LastSegment(s: string, sep: char): string {
    var parts := Split(s, sep);
    parts[|parts| - 1]
  }

  ghost predicate SeparatorFree(parts: seq<string>, sep: char) {
    forall k :: 0 <= k < |parts| ==> sep !in parts[k]
  }

  /** Joining the parts of a split gives back the string. */
  lemma {:induction false} JoinSplit(s: string, sep: char)
    ensures Join(Split(s, sep), sep) == s
    decreases |s|
  {
    if |s| > 0 {
      var rest := Split(s[1..], sep);
      JoinSplit(s[1..], sep);
      if s[0] == sep {
        assert Join([""] + rest, sep) == "" + [sep] + Join(rest, sep);
      } else {
        var parts := [[s[0]] + rest[0]] + rest[1..];
        if |rest| == 1 {
          assert Join(parts, sep) == [s[0]] + rest[0];
        } else {
          assert parts[1..] == rest[1..];
          assert Join(parts, sep) == [s[0]] + rest[0] + [sep] + Join(rest[1..], sep);
        }
      }
    }
  }

  /** No part of a split contains the separator. */
  lemma {:induction false} SplitSeparatorFree(s: string, sep: char)
    ensures SeparatorFree(Split(s, sep), sep)
    decreases |s|
  {
    if |s| > 0 {
      SplitSeparatorFree(s[1..], sep);
      var rest := Split(s[1..], sep);
      var parts := Split(s, sep);
      if s[0] != sep {
        forall k | 0 <= k < |parts| ensures sep !in parts[k] {
          if k > 0 {
            assert parts[k] == rest[k];
          }
        }
      }
    }
  }

  /** Splitting a join of separator-free parts gives the parts back. */
  lemma {:induction false} SplitJoin(parts: seq<string>, sep: char)
    requires |parts| >= 1
    requires SeparatorFree(parts, sep)
    ensures Split(Join(parts, sep), sep) == parts
    decreases |parts|, |parts[0]|
  {
    var p := parts[0];
    if |p| == 0 {
      if |parts| > 1 {
        SplitJoin(parts[1..], sep);
        var j := Join(parts, sep);
        assert j == [sep] + Join(parts[1..], sep);
        assert j[1..] == Join(parts[1..], sep);
        assert [""] + parts[1..] == parts;
      }
    } else {
      var tail := [p[1..]] + parts[1..];
      assert tail[1..] == parts[1..];
      assert SeparatorFree(tail, sep) by {
        forall k | 0 <= k < |tail| ensures sep !in tail[k] {
          if k == 0 {
            assert forall c :: c in p[1..] ==> c in p;
          } else {
            assert tail[k] == parts[k];
          }
        }
      }
      SplitJoin(tail, sep);
      var j := Join(parts, sep);
      assert p[0] in p;
      if |parts| == 1 {
        assert j == p;
        assert j[1..] == Join(tail, sep);
      } else {
        assert j == p + [sep] + Join(parts[1..], sep);
        assert Join(tail, sep) == p[1..] + [sep] + Join(parts[1..], sep);
        assert j[1..] == Join(tail, sep);
      }
      assert [p[0]] + p[1..] == p;
      assert [[p[0]] + p[1..]] + parts[1..] == parts;
    }
  }

  /** A split has two or more parts exactly when the separator occurs. */
  lemma {:induction false} SplitHasSeveralParts(s: string, sep: char)
    ensures |Split(s, sep)| >= 2 <==> sep in s
    decreases |s|
  {
    if |s| > 0 {
      SplitHasSeveralParts(s[1..], sep);
      assert s == [s[0]] + s[1..];
    }
  }

  /** The last segment is what follows the last separator: `s` is some prefix,
      the separator, then the segment (or the segment is all of `s` when the
      separator does not occur), and the segment holds no separator. */
  lemma LastSegmentSpec(s: string, sep: char)
    ensures sep !in LastSegment(s, sep)
    ensures sep !in s ==> LastSegment(s, sep) == s
    ensures sep in s ==> exists pre :: s == pre + [sep] + LastSegment(s, sep)
  {
    var parts := Split(s, sep);
    SplitSeparatorFree(s, sep);
    SplitHasSeveralParts(s, sep);
    JoinSplit(s, sep);
    JoinLast(parts, sep);
    if sep !in s {
      assert |parts| == 1;
    }
  }

  /** The last segment of `pre + [sep] + last` is `last` when `last` holds
      no separator, whatever `pre` is. */
  lemma {:induction false} LastSegmentAfter(pre: string, last: string, sep: char)
    requires sep !in last
    ensures LastSegment(pre + [sep] + last, sep) == last
    decreases |pre|
  {
    var s := pre + [sep] + last;
    if |pre| == 0 {
      assert s[0] == sep && s[1..] == last;
      SplitHasSeveralParts(last, sep);
      JoinSplit(last, sep);
    } else {
      assert s[0] == pre[0] && s[1..] == pre[1..] + [sep] + last;
      LastSegmentAfter(pre[1..], last, sep);
      assert sep in s[1..] by {
        assert s[1..][|pre| - 1] == sep;
      }
      SplitHasSeveralParts(s[1..], sep);
    }
  }

  lemma {:induction false} JoinLast(parts: seq<string>, sep: char)
    requires |parts| >= 1
    ensures |parts| >= 2 ==> exists pre :: Join(parts, sep) == pre + [sep] + parts[|parts| - 1]
    decreases |parts|
  {
    if |parts| == 2 {
      assert Join(parts, sep) == parts[0] + [sep] + parts[1];
    } else if |parts| > 2 {
      JoinLast(parts[1..], sep);
      var pre :| Join(parts[1..], sep) == pre + [sep] + parts[|parts| - 1];
      assert Join(parts, sep) == (parts[0] + [sep] + pre) + [sep] + parts[|parts| - 1];
    }
  }

  // ---------------------------------------------------------------------------
  // Case folding and length
  // ---------------------------------------------------------------------------

  function LowerChar(c: char): char {
    if 'A' <= c <= 'Z' then (c as int + 32) as char else c
  }

  /** `s.toLowerCase()` restricted to the ASCII letters. */
  function ToLower(s: string): (r: string)
    ensures |r| == |s|
    ensures forall i :: 0 <= i < |s| ==> r[i] == LowerChar(s[i])
  {
    seq(|s|, i requires 0 <= i < |s| => LowerChar(s[i]))
  }

  /** `s.length` in JavaScript counts UTF-16 code units: a character outside
      the Basic Multilingual Plane counts twice. */
  function Utf16Length(s: string): (n: nat)
    ensures |s| <= n <= 2 * |s|
  {
    if |s| == 0 then 0
    else (if s[0] as int >= 0x1_0000 then 2 else 1) + Utf16Length(s[1..])
  }
}
