/** String helpers shared by the model: the ASCII parts of Python's str
    methods (strip, isdigit, isalnum, replace, split) and a theory of
    substring occurrences used to state what a non-greedy tag search finds. */
module Text {

  datatype Option<T> = None | Some(value: T)

  // ---------------------------------------------------------------------
  // Character classes (ASCII view of Python's str predicates)
  // ---------------------------------------------------------------------

  /** Python's str.isspace on ASCII: \t \n \v \f \r, the separators \x1c-\x1f and space. */
  predicate IsSpace(c: char) {
    c == ' ' || ('\U{9}' <= c <= '\U{D}') || ('\U{1C}' <= c <= '\U{1F}')
  }

  predicate IsDigit(c: char) { '0' <= c <= '9' }

  predicate IsLetter(c: char) { ('a' <= c <= 'z') || ('A' <= c <= 'Z') }

  predicate IsAlnum(c: char) { IsDigit(c) || IsLetter(c) }

  /** Python's str.isalnum: non-empty and every character alphanumeric. */
  predicate IsAlnumString(s: string) {
    s != [] && forall i :: 0 <= i < |s| ==> IsAlnum(s[i])
  }

  function Upper(c: char): char { if 'a' <= c <= 'z' then (c as int - 32) as char else c }

  function Lower(c: char): char { if 'A' <= c <= 'Z' then (c as int + 32) as char else c }

  predicate AllSpace(s: string) { forall i :: 0 <= i < |s| ==> IsSpace(s[i]) }

  // ---------------------------------------------------------------------
  // Trimming
  // ---------------------------------------------------------------------

  /** The number of whitespace characters s starts with. */
  function LeadingSpace(s: string): (k: nat)
    ensures k <= |s|
    ensures forall i :: 0 <= i < k ==> IsSpace(s[i])
    ensures k == |s| || !IsSpace(s[k])
  {
    if s != [] && IsSpace(s[0]) then 1 + LeadingSpace(s[1..]) else 0
  }

  /** The number of whitespace characters s ends with. */
  function TrailingSpace(s: string): (k: nat)
    ensures k <= |s|
    ensures forall i :: |s| - k <= i < |s| ==> IsSpace(s[i])
    ensures k == |s| || !IsSpace(s[|s| - 1 - k])
  {
    if s != [] && IsSpace(s[|s| - 1]) then 1 + TrailingSpace(s[..|s| - 1]) else 0
  }

  /** Python's str.strip() with no argument: whitespace removed at both ends. */
  function Strip(s: string): string {
    var t := s[LeadingSpace(s)..];
    t[..|t| - TrailingSpace(t)]
  }

  /** The stripped text is the slice of s between the first and the last
      non-whitespace character, and it is empty exactly when s is all whitespace. */
  lemma StripSpec(s: string)
    ensures var r := Strip(s);
            exists lo :: 0 <= lo <= |s| - |r| && r == s[lo..lo + |r|]
                         && AllSpace(s[..lo]) && AllSpace(s[lo + |r|..])
    ensures var r := Strip(s);
            r != [] ==> !IsSpace(r[0]) && !IsSpace(r[|r| - 1])
    ensures Strip(s) == [] <==> AllSpace(s)
  {
    var lo := LeadingSpace(s);
    var t := s[lo..];
    var n := TrailingSpace(t);
    var r := t[..|t| - n];
    assert r == Strip(s);
    assert r == s[lo..lo + |r|];
    forall i | 0 <= i < lo
      ensures IsSpace(s[..lo][i])
    {
      assert s[..lo][i] == s[i];
    }
    var u := s[lo + |r|..];
    forall i | 0 <= i < |u|
      ensures IsSpace(u[i])
    {
      assert u[i] == t[|r| + i];
    }
    if r != [] {
      assert r[0] == s[lo];
      assert r[|r| - 1] == t[|t| - 1 - n];
    } else {
      assert lo == |s|;
    }
  }

  /** A string that p does not occur in strips to one it does not occur in either. */
  lemma NotInStrip(p: string, s: string)
    requires !Occurs(p, s)
    ensures !Occurs(p, Strip(s))
  {
    var lo := LeadingSpace(s);
    var r := Strip(s);
    assert r == s[lo..lo + |r|];
    NotInSlice(p, s, lo, lo + |r|);
  }

  /** The number of copies of c that s starts with. */
  function LeadingChar(s: string, c: char): (k: nat)
    ensures k <= |s|
    ensures forall i :: 0 <= i < k ==> s[i] == c
    ensures k == |s| || s[k] != c
  {
    if s != [] && s[0] == c then 1 + LeadingChar(s[1..], c) else 0
  }

  /** Python's s.lstrip(c): drops leading copies of c. */
  function LStripChar(s: string, c: char): string {
    s[LeadingChar(s, c)..]
  }

  // ---------------------------------------------------------------------
  // Searching characters
  // ---------------------------------------------------------------------

  /** Index of the first c in s. */
  function IndexOf(s: string, c: char): (r: nat)
    requires c in s
    ensures r < |s| && s[r] == c && c !in s[..r]
  {
    if s[0] == c then 0 else 1 + IndexOf(s[1..], c)
  }

  // ---------------------------------------------------------------------
  // Substring occurrences
  // ---------------------------------------------------------------------

  /** p occurs in s starting at index k. */
  predicate OccursAt(p: string, s: string, k: nat) {
    k + |p| <= |s| && s[k..k + |p|] == p
  }

  predicate Occurs(p: string, s: string) {
    exists k: nat | k <= |s| :: OccursAt(p, s, k)
  }

  /** The first index at or after `from` where p occurs in s (Python's s.find(p, from)). */
  function FindFrom(p: string, s: string, from: nat): (r: Option<nat>)
    decreases |s| - from
    ensures r.Some? ==> from <= r.value && r.value + |p| <= |s|
  {
    if from + |p| > |s| then None
    else if s[from..from + |p|] == p then Some(from)
    else FindFrom(p, s, from + 1)
  }

  /** FindFrom finds an occurrence, and none lies between `from` and it;
      it finds nothing exactly when there is no occurrence at or after `from`. */
  lemma {:induction false} FindFromSpec(p: string, s: string, from: nat)
    ensures var r := FindFrom(p, s, from);
            r.Some? ==> OccursAt(p, s, r.value) && forall k: nat :: from <= k < r.value ==> !OccursAt(p, s, k)
    ensures FindFrom(p, s, from).None? ==> forall k: nat :: from <= k ==> !OccursAt(p, s, k)
    decreases |s| - from
  {
    if from + |p| <= |s| && s[from..from + |p|] != p {
      FindFromSpec(p, s, from + 1);
      assert !OccursAt(p, s, from);
    }
  }

  /** An occurrence at or after `from` makes FindFrom find one no later than it. */
  lemma {:induction false} FindFromReaches(p: string, s: string, from: nat, k: nat)
    requires from <= k && OccursAt(p, s, k)
    ensures FindFrom(p, s, from).Some? && FindFrom(p, s, from).value <= k
    decreases k - from
  {
    if s[from..from + |p|] != p {
      FindFromReaches(p, s, from + 1, k);
    }
  }

  /** An occurrence at n with none between `from` and n is what FindFrom finds. */
  lemma FindFromFirst(p: string, s: string, from: nat, n: nat)
    requires from <= n && OccursAt(p, s, n)
    requires forall k: nat :: from <= k < n ==> !OccursAt(p, s, k)
    ensures FindFrom(p, s, from) == Some(n)
  {
    FindFromSpec(p, s, from);
  }

  /** A tag such as "<sql>" or "</sql>": it starts with '<' and has no other '<',
      so no occurrence of it can overlap a later '<'. */
  predicate IsTag(p: string) {
    |p| >= 2 && p[0] == '<' && forall i :: 0 < i < |p| ==> p[i] != '<'
  }

  lemma OccursAtIndex(p: string, s: string, k: nat, d: nat)
    requires OccursAt(p, s, k) && d < |p|
    ensures s[k + d] == p[d]
  {
    assert s[k..k + |p|][d] == p[d];
  }

  /** An occurrence inside a slice of s is an occurrence in s. */
  lemma OccursInSlice(p: string, s: string, lo: nat, hi: nat, k: nat)
    requires lo <= hi <= |s| && OccursAt(p, s[lo..hi], k)
    ensures OccursAt(p, s, lo + k)
  {
    var w := s[lo..hi];
    assert k + |p| <= |w|;
    forall d | 0 <= d < |p|
      ensures s[lo + k + d] == p[d]
    {
      OccursAtIndex(p, w, k, d);
    }
    assert s[lo + k..lo + k + |p|] == p;
  }

  /** If p does not occur in s, it does not occur in any slice of s. */
  lemma NotInSlice(p: string, s: string, lo: nat, hi: nat)
    requires lo <= hi <= |s| && !Occurs(p, s)
    ensures !Occurs(p, s[lo..hi])
  {
    if Occurs(p, s[lo..hi]) {
      var k: nat :| OccursAt(p, s[lo..hi], k);
      assert OccursAt(p, s[lo..hi], k);
      OccursInSlice(p, s, lo, hi, k);
    }
  }

  /** An occurrence of a tag p in s before index n that reaches past n would
      put a '<' of p past its first position, when s[n] is '<'. */
  lemma TagCannotStraddle(p: string, s: string, n: nat, k: nat)
    requires IsTag(p) && n < |s| && s[n] == '<'
    requires k < n && OccursAt(p, s, k)
    ensures k + |p| <= n
  {
    if n < k + |p| {
      OccursAtIndex(p, s, k, n - k);
    }
  }

  /** With a tag p, the first occurrence at or after |pre| in pre + mid + p + post
      is the one right after mid, when mid itself does not contain p. */
  lemma {:induction false} FirstTagAfter(p: string, pre: string, mid: string, post: string)
    requires IsTag(p) && !Occurs(p, mid)
    ensures FindFrom(p, pre + mid + p + post, |pre|) == Some(|pre| + |mid|)
  {
    var s := pre + mid + p + post;
    var n := |pre| + |mid|;
    assert s[n..n + |p|] == p;
    assert OccursAt(p, s, n);
    assert s[n] == '<';
    forall k: nat | |pre| <= k < n
      ensures !OccursAt(p, s, k)
    {
      if OccursAt(p, s, k) {
        TagCannotStraddle(p, s, n, k);
        assert s[k..k + |p|] == mid[k - |pre|..k - |pre| + |p|];
        assert OccursAt(p, mid, k - |pre|);
      }
    }
    FindFromFirst(p, s, |pre|, n);
  }

  /** A slice of a + b lying within b is the matching slice of b. */
  lemma SliceOfConcat(a: string, b: string, i: nat, j: nat)
    requires i <= j <= |b|
    ensures (a + b)[|a| + i..|a| + j] == b[i..j]
  {
  }

  /** An occurrence of p in t + u that ends within t is an occurrence in t. */
  lemma OccursInPrefix(p: string, t: string, u: string, k: nat)
    requires k + |p| <= |t|
    ensures OccursAt(p, t + u, k) <==> OccursAt(p, t, k)
  {
    assert (t + u)[k..k + |p|] == t[k..k + |p|];
  }

  /** The result of FindFrom is unchanged by appending text, when the
      occurrence it found lies wholly before the appended part. */
  lemma FindFromExtends(p: string, t: string, u: string, from: nat)
    requires FindFrom(p, t, from).Some?
    ensures FindFrom(p, t + u, from) == FindFrom(p, t, from)
  {
    FindFromSpec(p, t, from);
    var m := FindFrom(p, t, from).value;
    OccursInPrefix(p, t, u, m);
    forall k: nat | from <= k < m
      ensures !OccursAt(p, t + u, k)
    {
      OccursInPrefix(p, t, u, k);
    }
    FindFromFirst(p, t + u, from, m);
  }

  /** A tag whose second character differs from that of the tag q cannot
      start inside q. */
  lemma TagNotInsideTag(p: string, q: string, rest: string, k: nat)
    requires IsTag(p) && IsTag(q) && p[1] != q[1]
    requires k < |q|
    ensures !OccursAt(p, q + rest, k)
  {
  }

  /** The tag p does not occur in q + b when it is not in b and cannot start inside the tag q. */
  lemma NoTagAfterTag(p: string, q: string, b: string)
    requires IsTag(p) && IsTag(q) && p[1] != q[1] && !Occurs(p, b)
    ensures !Occurs(p, q + b)
  {
    if Occurs(p, q + b) {
      var k: nat :| OccursAt(p, q + b, k);
      assert OccursAt(p, q + b, k);
      if k < |q| {
        TagNotInsideTag(p, q, b, k);
        assert false;
      } else {
        assert (q + b)[k..k + |p|] == b[k - |q|..k - |q| + |p|];
        assert OccursAt(p, b, k - |q|);
      }
    }
  }

  /** The tag p does not occur in a + b when it occurs in neither and b starts with '<'. */
  lemma NoTagInConcat(p: string, a: string, b: string)
    requires IsTag(p) && !Occurs(p, a) && !Occurs(p, b)
    requires b != [] && b[0] == '<'
    ensures !Occurs(p, a + b)
  {
    if Occurs(p, a + b) {
      var k: nat :| OccursAt(p, a + b, k);
      assert OccursAt(p, a + b, k);
      if k < |a| {
        TagCannotStraddle(p, a + b, |a|, k);
        OccursInPrefix(p, a, b, k);
      } else {
        assert (a + b)[k..k + |p|] == b[k - |a|..k - |a| + |p|];
        assert OccursAt(p, b, k - |a|);
      }
    }
  }

  /** A string without the character '<' contains no tag. */
  lemma NoTagWithoutBracket(p: string, s: string)
    requires IsTag(p) && '<' !in s
    ensures !Occurs(p, s)
  {
    if Occurs(p, s) {
      var k: nat :| OccursAt(p, s, k);
      assert OccursAt(p, s, k);
      OccursAtIndex(p, s, k, 0);
    }
  }

  /** A tag p occurs in none of pre + open + body + close when it occurs in
      neither pre nor body and is neither of the two tags around body. */
  lemma NoTagInLayout(p: string, pre: string, open: string, body: string, close: string)
    requires IsTag(p) && IsTag(open) && IsTag(close) && p[1] != open[1] && p[1] != close[1]
    requires !Occurs(p, pre) && !Occurs(p, body)
    ensures !Occurs(p, pre + open + body + close)
  {
    NoTagAfterTag(p, close, []);
    assert close + [] == close;
    NoTagInConcat(p, body, close);
    NoTagAfterTag(p, open, body + close);
    NoTagInConcat(p, pre, open + (body + close));
    assert pre + (open + (body + close)) == pre + open + body + close;
  }

  /** When a ends in a '>' that p has only as its last character, no
      occurrence of p in a + rest starts inside a unless one lies wholly in a. */
  lemma NoTagBeforeRest(p: string, a: string, rest: string)
    requires !Occurs(p, a) && a != [] && a[|a| - 1] == '>'
    requires p != [] && '>' !in p[..|p| - 1]
    ensures forall k: nat :: k < |a| ==> !OccursAt(p, a + rest, k)
  {
    forall k: nat | k < |a|
      ensures !OccursAt(p, a + rest, k)
    {
      if k + |p| <= |a| {
        OccursInPrefix(p, a, rest, k);
      } else {
        var d := |a| - 1 - k;
        assert p[..|p| - 1][d] == p[d] && p[d] != '>';
        assert (a + rest)[k + d] == '>';
        if k + |p| <= |a + rest| {
          assert (a + rest)[k..k + |p|][d] != p[d];
        }
      }
    }
  }

  // ---------------------------------------------------------------------
  // Replacing and splitting
  // ---------------------------------------------------------------------

  /** Python's s.replace(pat, rep): every non-overlapping occurrence of pat,
      scanning left to right, is replaced by rep. */
  function ReplaceAll(s: string, pat: string, rep: string): string
    requires pat != []
    decreases |s|
  {
    if |s| < |pat| then s
    else if s[..|pat|] == pat then rep + ReplaceAll(s[|pat|..], pat, rep)
    else [s[0]] + ReplaceAll(s[1..], pat, rep)
  }

  /** Replacing a single character by a single other character maps every position. */
  lemma {:induction false} ReplaceCharAt(s: string, c: char, d: char)
    ensures |ReplaceAll(s, [c], [d])| == |s|
    ensures forall i :: 0 <= i < |s| ==>
              ReplaceAll(s, [c], [d])[i] == (if s[i] == c then d else s[i])
  {
    if s != [] {
      ReplaceCharAt(s[1..], c, d);
      assert s[..1] == [s[0]];
      var r := ReplaceAll(s, [c], [d]);
      assert r == [if s[0] == c then d else s[0]] + ReplaceAll(s[1..], [c], [d]);
    }
  }

  /** Deleting the character c keeps exactly the other characters, in order. */
  lemma {:induction false} DeleteCharSpec(s: string, c: char)
    ensures c !in ReplaceAll(s, [c], [])
    ensures forall x :: x != c ==> (x in ReplaceAll(s, [c], []) <==> x in s)
  {
    if s != [] {
      DeleteCharSpec(s[1..], c);
      assert s[..1] == [s[0]];
      assert s == [s[0]] + s[1..];
    }
  }

  /** The parts of s joined back with sep. */
  function Join(parts: seq<string>, sep: char): string
    requires parts != []
  {
    if |parts| == 1 then parts[0] else parts[0] + [sep] + Join(parts[1..], sep)
  }

  /** Python's s.split(sep) for a one-character separator. */
  function Split(s: string, sep: char): (parts: seq<string>)
    ensures parts != [] && Join(parts, sep) == s
    ensures forall i :: 0 <= i < |parts| ==> sep !in parts[i]
    decreases |s|
  {
    if sep !in s then [s]
    else
      var i := IndexOf(s, sep);
      var rest := Split(s[i + 1..], sep);
      assert s == s[..i] + [sep] + s[i + 1..];
      [s[..i]] + rest
  }
}
