/**
 * POSIX path helpers with the behaviour of Python's `posixpath`: two-argument
 * `join`, the root half of `splitext`, and "lies below a directory".
 * Paths are compared literally: no normalisation of `.`, `..` or repeated `/`.
 */
module Paths {
  import opened Strings

  /** `os.path.join(a, b)`: an absolute `b` replaces `a`; otherwise one `/` separates them. */
  function Join(a: string, b: string): string {
    if |b| > 0 && b[0] == '/' then b
    else if |a| == 0 || a[|a| - 1] == '/' then a + b
    else a + "/" + b
  }

  /**
   * The joined path ends with `b`; an absolute `b` is the whole result, and
   * otherwise `a` comes first, separated from `b` by at most one added `/`.
   */
  lemma JoinShape(a: string, b: string)
    ensures EndsWith(Join(a, b), b)
    ensures |b| > 0 && b[0] == '/' ==> Join(a, b) == b
    ensures !(|b| > 0 && b[0] == '/') ==>
      && a <= Join(a, b)
      && |Join(a, b)| - |b| - |a| == (if |a| == 0 || a[|a| - 1] == '/' then 0 else 1)
      && (|a| > 0 ==> Join(a, b)[|Join(a, b)| - |b| - 1] == '/')
  {
  }

  /** `s.rfind(c)`: the last index holding `c`, or -1. */
  function RFind(s: string, c: char): (k: int)
    ensures -1 <= k < |s|
    ensures k >= 0 ==> s[k] == c
    ensures forall j :: k < j < |s| ==> s[j] != c
    decreases |s|
  {
    if |s| == 0 then -1
    else if s[|s| - 1] == c then |s| - 1
    else RFind(s[..|s| - 1], c)
  }

  /** The last occurrence is determined by any occurrence with nothing after it. */
  lemma RFindAt(s: string, c: char, k: nat)
    requires k < |s| && s[k] == c
    requires forall j :: k < j < |s| ==> s[j] != c
    ensures RFind(s, c) == k
  {
  }

  /** Some position in `[from, to)` of `s` holds a character other than `.`. */
  predicate HasNonDot(s: string, from: int, to: int)
    requires 0 <= from && to <= |s|
  {
    exists j :: from <= j < to && s[j] != '.'
  }

  /**
   * The root returned by `os.path.splitext(p)[0]`: `p` cut at its last dot when
   * that dot lies in the final component and is preceded there by a character
   * other than a dot; otherwise `p` itself (".zip" and "..zip" have no extension).
   */
  function SplitExtRoot(p: string): (root: string)
    ensures root <= p
    ensures |root| < |p| ==> p[|root|] == '.' && '/' !in p[|root|..] && '.' !in p[|root| + 1..]
  {
    var sepIndex := RFind(p, '/');
    var dotIndex := RFind(p, '.');
    if dotIndex > sepIndex && HasNonDot(p, sepIndex + 1, dotIndex) then
      assert forall j :: dotIndex < j < |p| ==> p[j] != '.';
      p[..dotIndex]
    else p
  }

  /**
   * `p` has an extension: a dot in its final component, preceded in that
   * component by a character other than a dot.
   */
  predicate HasExtension(p: string) {
    exists d, c :: 0 <= c < d < |p| && p[d] == '.' && p[c] != '.' && '/' !in p[c..]
  }

  /** `splitext` cuts the path exactly when the path has an extension. */
  lemma {:induction false} SplitExtRootCuts(p: string)
    ensures |SplitExtRoot(p)| < |p| <==> HasExtension(p)
  {
    var sepIndex := RFind(p, '/');
    var dotIndex := RFind(p, '.');
    if dotIndex > sepIndex && HasNonDot(p, sepIndex + 1, dotIndex) {
      var c :| sepIndex + 1 <= c < dotIndex && p[c] != '.';
      assert '/' !in p[c..] by {
        forall j | 0 <= j < |p[c..]| ensures p[c..][j] != '/' {
          assert p[c..][j] == p[c + j];
        }
      }
      assert HasExtension(p);
    }
    if HasExtension(p) {
      var d, c :| 0 <= c < d < |p| && p[d] == '.' && p[c] != '.' && '/' !in p[c..];
      assert d <= dotIndex;
      forall j | c <= j < |p| ensures p[j] != '/' {
        assert p[j] == p[c..][j - c];
      }
      assert sepIndex < c;
      assert HasNonDot(p, sepIndex + 1, dotIndex);
    }
  }

  /** `q` lies strictly below the directory `p`. */
  predicate IsUnder(q: string, p: string) {
    p + "/" <= q
  }

  /** Being below is transitive. */
  lemma IsUnderTrans(q: string, p: string, r: string)
    requires IsUnder(q, p) && IsUnder(p, r)
    ensures IsUnder(q, r)
  {
    assert (r + "/") <= (p + "/");
  }
}
