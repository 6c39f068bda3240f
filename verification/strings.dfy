/**
 * The handful of Python string operations the chef relies on, over `seq<char>`:
 * substring test (`in`), `split(sep)[0]`, `replace`, `lower` and `endswith`.
 */
module Strings {

  /** `sub` occurs in `s` starting at index `i`. */
  predicate OccursAt(s: string, sub: string, i: nat) {
    i + |sub| <= |s| && s[i..i + |sub|] == sub
  }

  /** Python's `sub in s`. */
  predicate Contains(s: string, sub: string)
    decreases |s|
  {
    if sub <= s then true
    else if |s| == 0 then false
    else Contains(s[1..], sub)
  }

  /** Python's `s.endswith(suffix)`. */
  predicate EndsWith(s: string, suffix: string) {
    |suffix| <= |s| && s[|s| - |suffix|..] == suffix
  }

  /** Shifting an occurrence by one position matches dropping the first character. */
  lemma OccursAtTail(s: string, sub: string)
    requires |s| > 0
    ensures forall i: nat :: i >= 1 ==> (OccursAt(s, sub, i) <==> OccursAt(s[1..], sub, i - 1))
  {
    forall i: nat | i >= 1
      ensures OccursAt(s, sub, i) <==> OccursAt(s[1..], sub, i - 1)
    {
      if i + |sub| <= |s| {
        assert s[1..][i - 1..i - 1 + |sub|] == s[i..i + |sub|];
      }
    }
  }

  /** `Contains` holds exactly when `sub` occurs somewhere in `s`. */
  lemma {:induction false} ContainsIff(s: string, sub: string)
    ensures Contains(s, sub) <==> exists i: nat :: OccursAt(s, sub, i)
    decreases |s|
  {
    if sub <= s {
      assert OccursAt(s, sub, 0);
    } else if |s| == 0 {
      assert |sub| > 0;
      forall i: nat ensures !OccursAt(s, sub, i) {
      }
    } else {
      ContainsIff(s[1..], sub);
      OccursAtTail(s, sub);
      if Contains(s[1..], sub) {
        var i: nat :| OccursAt(s[1..], sub, i);
        assert OccursAt(s, sub, i + 1);
      } else {
        forall i: nat ensures !OccursAt(s, sub, i) {
          if i == 0 {
            assert !(sub <= s);
          } else {
            assert !OccursAt(s[1..], sub, i - 1);
          }
        }
      }
    }
  }

  /** A string shorter than `sub` cannot contain it. */
  lemma ShortNotContains(s: string, sub: string)
    requires |s| < |sub|
    ensures !Contains(s, sub)
  {
    ContainsIff(s, sub);
  }

  /**
   * Python's `s.split(sep)[0]`: everything before the first occurrence of
   * `sep`, or all of `s` when `sep` does not occur.
   */
  function SplitHead(s: string, sep: string): (head: string)
    requires |sep| > 0
    ensures head <= s
    ensures |head| == |s| || OccursAt(s, sep, |head|)
    ensures forall i: nat :: i < |head| ==> !OccursAt(s, sep, i)
    decreases |s|
  {
    if sep <= s then ""
    else if |s| == 0 then ""
    else
      OccursAtTail(s, sep);
      assert !OccursAt(s, sep, 0);
      [s[0]] + SplitHead(s[1..], sep)
  }

  /** Split at a one-character separator: the head holds no such character, and one follows it unless it is all of `s`. */
  lemma SplitHeadChar(s: string, c: char)
    ensures c !in SplitHead(s, [c])
    ensures |SplitHead(s, [c])| < |s| ==> s[|SplitHead(s, [c])|] == c
  {
    var h := SplitHead(s, [c]);
    forall i | 0 <= i < |h| ensures h[i] != c {
      if h[i] == c {
        assert s[i..i + 1] == [c];
        assert OccursAt(s, [c], i);
      }
    }
    if |h| < |s| {
      assert s[|h|..|h| + 1] == [c];
    }
  }

  /** When `sep` is absent the split head is the whole string. */
  lemma SplitHeadAbsent(s: string, sep: string)
    requires |sep| > 0
    requires !Contains(s, sep)
    ensures SplitHead(s, sep) == s
  {
    ContainsIff(s, sep);
  }

  /** The split head never contains the separator. */
  lemma SplitHeadNoSeparator(s: string, sep: string)
    requires |sep| > 0
    ensures !Contains(SplitHead(s, sep), sep)
  {
    var h := SplitHead(s, sep);
    ContainsIff(h, sep);
    forall i: nat ensures !OccursAt(h, sep, i) {
      if OccursAt(h, sep, i) {
        assert h[i..i + |sep|] == s[i..i + |sep|];
        assert OccursAt(s, sep, i);
      }
    }
  }

  /**
   * Python's `s.replace(pat, rep)`: every non-overlapping occurrence of `pat`,
   * scanning left to right, is replaced by `rep`; replaced text is not rescanned.
   */
  function ReplaceAll(s: string, pat: string, rep: string): string
    requires |pat| > 0
    decreases |s|
  {
    if pat <= s then rep + ReplaceAll(s[|pat|..], pat, rep)
    else if |s| == 0 then ""
    else [s[0]] + ReplaceAll(s[1..], pat, rep)
  }

  /** A string missing one of `pat`'s characters is left unchanged by the replacement. */
  lemma {:induction false} ReplaceAllAbsent(s: string, pat: string, rep: string, c: char)
    requires |pat| > 0
    requires c in pat && c !in s
    ensures ReplaceAll(s, pat, rep) == s
    decreases |s|
  {
    var k :| 0 <= k < |pat| && pat[k] == c;
    assert !(pat <= s) by {
      if |pat| <= |s| {
        assert s[k] != c;
      }
    }
    if |s| > 0 {
      ReplaceAllAbsent(s[1..], pat, rep, c);
    }
  }

  /**
   * When `pat` starts with a character absent from `pre`, the replacement leaves
   * `pre` alone and the first occurrence found is the one right after it.
   */
  lemma {:induction false} ReplaceAllAfter(pre: string, pat: string, rep: string, rest: string)
    requires |pat| > 0
    requires pat[0] !in pre
    ensures ReplaceAll(pre + pat + rest, pat, rep) == pre + rep + ReplaceAll(rest, pat, rep)
    decreases |pre|
  {
    var s := pre + pat + rest;
    if |pre| == 0 {
      assert s == pat + rest;
      assert s[|pat|..] == rest;
    } else {
      assert s[0] == pre[0] && pre[0] != pat[0];
      assert !(pat <= s) && |s| > 0;
      assert s[1..] == pre[1..] + pat + rest;
      ReplaceAllAfter(pre[1..], pat, rep, rest);
      var tail := ReplaceAll(rest, pat, rep);
      assert ReplaceAll(s, pat, rep) == [pre[0]] + (pre[1..] + rep + tail);
      assert [pre[0]] + (pre[1..] + rep + tail) == ([pre[0]] + pre[1..]) + rep + tail;
      assert [pre[0]] + pre[1..] == pre;
    }
  }

  /** Python's `s.replace(a, b)` for single characters, as a character-wise map. */
  function ReplaceChar(s: string, a: char, b: char): (r: string)
    ensures |r| == |s|
    ensures forall i :: 0 <= i < |s| ==> r[i] == (if s[i] == a then b else s[i])
    decreases |s|
  {
    if |s| == 0 then "" else [if s[0] == a then b else s[0]] + ReplaceChar(s[1..], a, b)
  }

  /** Replacing a character distributes over concatenation. */
  lemma ReplaceCharAppend(s: string, t: string, a: char, b: char)
    ensures ReplaceChar(s + t, a, b) == ReplaceChar(s, a, b) + ReplaceChar(t, a, b)
  {
    var l := ReplaceChar(s + t, a, b);
    var r := ReplaceChar(s, a, b) + ReplaceChar(t, a, b);
    assert |l| == |r|;
    forall i | 0 <= i < |l| ensures l[i] == r[i] {
      if i < |s| { assert (s + t)[i] == s[i]; } else { assert (s + t)[i] == t[i - |s|]; }
    }
  }

  /** Python's `s.replace(c, "")` for a single character. */
  function DeleteChar(s: string, c: char): (r: string)
    ensures c !in r
    ensures multiset(r) == multiset(s)[c := 0]
    decreases |s|
  {
    if |s| == 0 then ""
    else if s[0] == c then
      assert s == [s[0]] + s[1..];
      DeleteChar(s[1..], c)
    else
      assert s == [s[0]] + s[1..];
      [s[0]] + DeleteChar(s[1..], c)
  }

  /** Deleting a character that is absent changes nothing. */
  lemma {:induction false} DeleteCharAbsent(s: string, c: char)
    requires c !in s
    ensures DeleteChar(s, c) == s
    decreases |s|
  {
    if |s| > 0 {
      DeleteCharAbsent(s[1..], c);
    }
  }

  /** Python's `str.lower` restricted to the ASCII letters. */
  function LowerChar(c: char): (l: char)
    ensures 'A' <= c <= 'Z' ==> 'a' <= l <= 'z' && l as int == c as int + 32
    ensures !('A' <= c <= 'Z') ==> l == c
  {
    if 'A' <= c <= 'Z' then (c as int + 32) as char else c
  }

  function Lower(s: string): (r: string)
    ensures |r| == |s|
    ensures forall i :: 0 <= i < |s| ==> r[i] == LowerChar(s[i])
    decreases |s|
  {
    if |s| == 0 then "" else [LowerChar(s[0])] + Lower(s[1..])
  }

  /** Lowering is idempotent. */
  lemma LowerIdempotent(s: string)
    ensures Lower(Lower(s)) == Lower(s)
  {
    var l := Lower(s);
    assert forall i :: 0 <= i < |l| ==> LowerChar(l[i]) == l[i];
  }
}
