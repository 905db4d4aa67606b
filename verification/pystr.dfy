/**
 The three Python `str` builtins the keyword scorer relies on:
 `s.split(sep)` with a one-character separator, `s.lower()` and the
 substring test `needle in hay`. Each is given with an independent
 characterisation (a count, a join that undoes the split, an occurrence
 index) and the lemmas that tie the two together.
 */
module PyStr {

  // ---------------------------------------------------------------------
  // s.lower()
  // ---------------------------------------------------------------------

  /** Lower-cases one character; only the ASCII letters 'A'..'Z' change. */
  function LowerChar(c: char): (l: char)
    ensures 'A' <= c <= 'Z' ==> 'a' <= l <= 'z' && l as int - c as int == 32
    ensures !('A' <= c <= 'Z') ==> l == c
  {
    if 'A' <= c <= 'Z' then (c as int + 32) as char else c
  }

  /** `s.lower()`: every character lower-cased, nothing else changes. */
  function Lower(s: string): (r: string)
    ensures |r| == |s|
    ensures forall i :: 0 <= i < |s| ==> r[i] == LowerChar(s[i])
  {
    if s == [] then [] else [LowerChar(s[0])] + Lower(s[1..])
  }

  /** Lower-casing twice is lower-casing once. */
  lemma LowerIdempotent(s: string)
    ensures Lower(Lower(s)) == Lower(s)
  {
    assert forall i :: 0 <= i < |s| ==> LowerChar(LowerChar(s[i])) == LowerChar(s[i]);
  }

  /** Lower-casing commutes with taking a slice. */
  lemma LowerSlice(s: string, i: nat, j: nat)
    requires i <= j <= |s|
    ensures Lower(s[i..j]) == Lower(s)[i..j]
  {
    var a, b := Lower(s[i..j]), Lower(s)[i..j];
    forall k | 0 <= k < j - i
      ensures a[k] == b[k]
    {
      assert s[i..j][k] == s[i + k];
    }
  }

  /** Texts that agree character by character up to case have the same
      lower-case form. */
  lemma LowerEqual(s: string, t: string)
    requires |s| == |t|
    requires forall i :: 0 <= i < |s| ==> LowerChar(s[i]) == LowerChar(t[i])
    ensures Lower(s) == Lower(t)
  {
  }

  /** A lower-case letter is in `s.lower()` only when it, or its upper-case
      form, is in `s`. */
  lemma LowerKeepsAbsence(s: string, c: char)
    requires 'a' <= c <= 'z'
    requires c !in s && (c as int - 32) as char !in s
    ensures c !in Lower(s)
  {
  }

  /** Lower-casing commutes with concatenation. */
  lemma LowerAppend(s: string, t: string)
    ensures Lower(s + t) == Lower(s) + Lower(t)
  {
  }

  // ---------------------------------------------------------------------
  // s.split(sep)
  // ---------------------------------------------------------------------

  /** Number of occurrences of `c` in `s`. */
  function Occurrences(s: string, c: char): nat
  {
    if s == [] then 0 else (if s[0] == c then 1 else 0) + Occurrences(s[1..], c)
  }

  /**
   `s.split(sep)` for a one-character separator: the text between
   consecutive separators, including the empty text before a leading
   separator, between two adjacent ones and after a trailing one. The
   empty string splits into one empty fragment.
   */
  function Split(s: string, sep: char): (parts: seq<string>)
    ensures |parts| == Occurrences(s, sep) + 1
    ensures forall k :: 0 <= k < |parts| ==> sep !in parts[k]
    decreases |s|
  {
    if s == [] then [""]
    else
      var rest := Split(s[1..], sep);
      if s[0] == sep then [""] + rest
      else [[s[0]] + rest[0]] + rest[1..]
  }

  /** `sep.join(parts)`: the parts with one separator between neighbours. */
  function Join(parts: seq<string>, sep: char): string
  {
    if parts == [] then ""
    else if |parts| == 1 then parts[0]
    else parts[0] + [sep] + Join(parts[1..], sep)
  }

  /** Joining the fragments with the separator gives back the text. */
  lemma {:induction false} JoinSplit(s: string, sep: char)
    ensures Join(Split(s, sep), sep) == s
    decreases |s|
  {
    if s != [] {
      var rest := Split(s[1..], sep);
      JoinSplit(s[1..], sep);
      if s[0] == sep {
        assert ([""] + rest)[1..] == rest;
      } else {
        var parts := [[s[0]] + rest[0]] + rest[1..];
        if |rest| == 1 {
          assert parts == [[s[0]] + rest[0]];
        } else {
          assert parts[1..] == rest[1..];
          assert Join(rest, sep) == rest[0] + [sep] + Join(rest[1..], sep);
        }
        assert s == [s[0]] + s[1..];
      }
    }
  }

  /** One step of `Split`: how the first character of the text extends the
      fragments of the remainder. */
  lemma SplitCons(c: char, s: string, sep: char)
    ensures Split([c] + s, sep) ==
      if c == sep then [""] + Split(s, sep)
      else [[c] + Split(s, sep)[0]] + Split(s, sep)[1..]
  {
    assert ([c] + s)[1..] == s;
  }

  /** Splitting a text whose first piece has no separator. */
  lemma {:induction false} SplitSeparatorFree(w: string, t: string, sep: char)
    requires sep !in w
    ensures Split(w + t, sep) == [w + Split(t, sep)[0]] + Split(t, sep)[1..]
    decreases |w|
  {
    var parts := Split(t, sep);
    if w == [] {
      assert w + t == t && w + parts[0] == parts[0];
      assert parts == [parts[0]] + parts[1..];
    } else {
      assert Split(w[1..] + t, sep) == [w[1..] + parts[0]] + parts[1..] by {
        SplitSeparatorFree(w[1..], t, sep);
      }
      assert Split(w + t, sep) == [[w[0]] + (w[1..] + parts[0])] + parts[1..] by {
        assert w + t == [w[0]] + (w[1..] + t);
        SplitCons(w[0], w[1..] + t, sep);
      }
      assert [w[0]] + (w[1..] + parts[0]) == w + parts[0];
    }
  }

  /** Splitting a join of separator-free parts gives back the parts. */
  lemma {:induction false} SplitJoin(parts: seq<string>, sep: char)
    requires |parts| >= 1
    requires forall k :: 0 <= k < |parts| ==> sep !in parts[k]
    ensures Split(Join(parts, sep), sep) == parts
    decreases |parts|
  {
    if |parts| == 1 {
      SplitSeparatorFree(parts[0], "", sep);
      assert parts[0] + "" == parts[0];
    } else {
      var tail := Join(parts[1..], sep);
      assert Join(parts, sep) == parts[0] + ([sep] + tail);
      assert Split([sep] + tail, sep) == [""] + parts[1..] by {
        SplitJoin(parts[1..], sep);
        SplitCons(sep, tail, sep);
      }
      assert Split(parts[0] + ([sep] + tail), sep) == [parts[0] + ""] + parts[1..] by {
        SplitSeparatorFree(parts[0], [sep] + tail, sep);
        assert ([""] + parts[1..])[1..] == parts[1..];
      }
      assert parts[0] + "" == parts[0];
      assert parts == [parts[0]] + parts[1..];
    }
  }

  /** Indexing past a new first element. */
  lemma HeadAdded<T>(h: T, r: seq<T>, k: int)
    requires 0 < k <= |r|
    ensures ([h] + r)[k] == r[k - 1]
  {
  }

  /** Indexing past a replaced first element. */
  lemma HeadReplaced<T>(h: T, r: seq<T>, k: int)
    requires 0 < k < |r|
    ensures ([h] + r[1..])[k] == r[k]
  {
  }

  /** Lower-casing a text and then splitting it on a non-letter is the same
      as splitting it and lower-casing each fragment. */
  lemma {:induction false} SplitLower(s: string, sep: char)
    requires !('A' <= sep <= 'Z') && !('a' <= sep <= 'z')
    ensures |Split(Lower(s), sep)| == |Split(s, sep)|
    ensures forall k :: 0 <= k < |Split(s, sep)| ==> Split(Lower(s), sep)[k] == Lower(Split(s, sep)[k])
    decreases |s|
  {
    if s != [] {
      var c, t := s[0], s[1..];
      var lc := LowerChar(c);
      var r, l := Split(t, sep), Split(Lower(t), sep);
      SplitLower(t, sep);
      var parts, lowered := Split(s, sep), Split(Lower(s), sep);
      assert parts == (if c == sep then [""] + r else [[c] + r[0]] + r[1..]) by {
        assert s == [c] + t;
        SplitCons(c, t, sep);
      }
      assert lowered == (if lc == sep then [""] + l else [[lc] + l[0]] + l[1..]) by {
        assert s == [c] + t;
        LowerAppend([c], t);
        SplitCons(lc, Lower(t), sep);
      }
      if c == sep {
        assert lc == sep;
        forall k | 0 <= k < |parts|
          ensures lowered[k] == Lower(parts[k])
        {
          if k > 0 {
            HeadAdded("", r, k);
            HeadAdded("", l, k);
          }
        }
      } else {
        assert lc != sep;
        forall k | 0 <= k < |parts|
          ensures lowered[k] == Lower(parts[k])
        {
          if k == 0 {
            LowerAppend([c], r[0]);
          } else {
            HeadReplaced([c] + r[0], r, k);
            HeadReplaced([lc] + l[0], l, k);
          }
        }
      }
    }
  }

  // ---------------------------------------------------------------------
  // needle in hay
  // ---------------------------------------------------------------------

  /** `needle` occurs in `hay` starting at index `i`. */
  ghost predicate OccursAt(hay: string, needle: string, i: int)
  {
    0 <= i && i + |needle| <= |hay| && hay[i..i + |needle|] == needle
  }

  /** `hay.startswith(p)`. */
  predicate StartsWith(hay: string, p: string)
  {
    |p| <= |hay| && hay[..|p|] == p
  }

  /** `needle in hay`: `needle` starts at the front of `hay` or further on. */
  predicate Contains(hay: string, needle: string)
    ensures needle == [] ==> Contains(hay, needle)
    ensures Contains(hay, needle) ==> |needle| <= |hay|
    decreases |hay|
  {
    StartsWith(hay, needle) || (hay != [] && Contains(hay[1..], needle))
  }

  /** `needle in hay` holds exactly when `needle` occurs at some index. */
  lemma {:induction false} ContainsIff(hay: string, needle: string)
    ensures Contains(hay, needle) <==> exists i :: OccursAt(hay, needle, i)
    decreases |hay|
  {
    if exists i :: OccursAt(hay, needle, i) {
      var i :| OccursAt(hay, needle, i);
      if i == 0 {
        assert StartsWith(hay, needle);
      } else {
        assert hay[1..][i - 1..i - 1 + |needle|] == hay[i..i + |needle|];
        assert OccursAt(hay[1..], needle, i - 1);
        ContainsIff(hay[1..], needle);
      }
    }
    if Contains(hay, needle) {
      if StartsWith(hay, needle) {
        assert OccursAt(hay, needle, 0);
      } else {
        ContainsIff(hay[1..], needle);
        var i :| OccursAt(hay[1..], needle, i);
        assert hay[i + 1..i + 1 + |needle|] == hay[1..][i..i + |needle|];
        assert OccursAt(hay, needle, i + 1);
      }
    }
  }

  /** A non-empty needle is in `hay` only when its first character is. */
  lemma ContainsFirstCharacter(hay: string, needle: string)
    requires needle != []
    ensures Contains(hay, needle) ==> needle[0] in hay
  {
    if Contains(hay, needle) {
      ContainsIff(hay, needle);
      var i :| OccursAt(hay, needle, i);
      assert hay[i] == hay[i..i + |needle|][0];
    }
  }

}
