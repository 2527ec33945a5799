/** The handful of JavaScript string primitives the site relies on, over
    `string` = `seq<char>`: white space as `\s` and `trim` see it, ASCII
    lower-casing, `includes`, and `split`/`join` on a one-character
    separator. */
module Text {

  /** JavaScript white space: what `\s` matches in a regular expression and
      what `String.prototype.trim` strips (WhiteSpace plus LineTerminator). */
  predicate IsSpace(c: char) {
    || c == ' ' || c == '\t' || c == '\n' || c == '\r' || c == '\U{B}' || c == '\U{C}'
    || c == '\U{A0}' || c == '\U{1680}' || ('\U{2000}' <= c <= '\U{200A}')
    || c == '\U{2028}' || c == '\U{2029}' || c == '\U{202F}' || c == '\U{205F}'
    || c == '\U{3000}' || c == '\U{FEFF}'
  }

  /** `[A-Z]`, `[a-z]` and `\d` of a JavaScript regular expression. */
  predicate IsUpper(c: char) { 'A' <= c <= 'Z' }
  predicate IsLowerLetter(c: char) { 'a' <= c <= 'z' }
  predicate IsDigit(c: char) { '0' <= c <= '9' }

  predicate NoSpace(s: string) {
    forall i :: 0 <= i < |s| ==> !IsSpace(s[i])
  }

  /* ---------- length ---------- */

  /** A character outside the Basic Multilingual Plane, stored as a
      surrogate pair in UTF-16. */
  predicate IsAstral(c: char) { c as int >= 0x1_0000 }

  /** `s.length`: the number of UTF-16 code units, two for each astral
      character and one for every other. */
  function Utf16Length(s: string): (n: nat)
    ensures |s| <= n <= 2 * |s|
    ensures n == 0 <==> s == []
    ensures (forall i :: 0 <= i < |s| ==> !IsAstral(s[i])) ==> n == |s|
    decreases |s|
  {
    if |s| == 0 then 0 else (if IsAstral(s[0]) then 2 else 1) + Utf16Length(s[1..])
  }

  /* ---------- lower case ---------- */

  function LowerChar(c: char): (d: char)
    ensures !IsUpper(d)
    ensures !IsUpper(c) ==> d == c
    ensures IsSpace(d) <==> IsSpace(c)
  {
    if IsUpper(c) then (c as int + 32) as char else c
  }

  /** `toLowerCase`, for the ASCII letters. */
  function Lower(s: string): (r: string)
    ensures |r| == |s|
    ensures forall i :: 0 <= i < |s| ==> r[i] == LowerChar(s[i])
  {
    seq(|s|, i requires 0 <= i < |s| => LowerChar(s[i]))
  }

  lemma LowerIdempotent(s: string)
    ensures Lower(Lower(s)) == Lower(s)
  {
  }

  lemma LowerWithoutUpper(s: string)
    requires forall i :: 0 <= i < |s| ==> !IsUpper(s[i])
    ensures Lower(s) == s
  {
  }

  lemma LowerConcat(a: string, b: string)
    ensures Lower(a + b) == Lower(a) + Lower(b)
  {
  }

  /** Lower-casing neither adds nor removes a character that has no case. */
  lemma {:induction false} LowerKeepsCount(s: string, c: char)
    requires !IsUpper(c) && !IsLowerLetter(c)
    ensures multiset(Lower(s))[c] == multiset(s)[c]
    decreases |s|
  {
    if |s| > 0 {
      LowerCons(s);
      ConsCount(s[0], s[1..], c);
      ConsCount(LowerChar(s[0]), Lower(s[1..]), c);
      LowerKeepsCount(s[1..], c);
    }
  }

  lemma LowerCons(s: string)
    requires |s| > 0
    ensures s == [s[0]] + s[1..]
    ensures Lower(s) == [LowerChar(s[0])] + Lower(s[1..])
  {
  }

  lemma ConsCount(x: char, s: string, c: char)
    ensures multiset([x] + s)[c] == multiset(s)[c] + if x == c then 1 else 0
  {
    assert multiset([x] + s) == multiset{x} + multiset(s);
  }

  /* ---------- trim ---------- */

  /** Drops the leading run of white space, and only that. */
  function TrimStart(s: string): (r: string)
    ensures |r| <= |s| && r == s[|s| - |r|..]
    ensures |r| > 0 ==> !IsSpace(r[0])
    ensures forall i :: 0 <= i < |s| - |r| ==> IsSpace(s[i])
    decreases |s|
  {
    if |s| > 0 && IsSpace(s[0]) then TrimStart(s[1..]) else s
  }

  /** Drops the trailing run of white space, and only that. */
  function TrimEnd(s: string): (r: string)
    ensures |r| <= |s| && r == s[..|r|]
    ensures |r| > 0 ==> !IsSpace(r[|r| - 1])
    ensures forall i :: |r| <= i < |s| ==> IsSpace(s[i])
    decreases |s|
  {
    if |s| > 0 && IsSpace(s[|s| - 1]) then TrimEnd(s[..|s| - 1]) else s
  }

  /** `String.prototype.trim`. */
  function Trim(s: string): (r: string)
    ensures |r| <= |s|
    ensures |r| > 0 ==> !IsSpace(r[0]) && !IsSpace(r[|r| - 1])
    ensures NoSpace(s) ==> r == s
  {
    TrimEnd(TrimStart(s))
  }

  /** `r` is the slice of `s` at offset `i`, with only white space before
      and after it. */
  predicate MiddleAt(s: string, r: string, i: int) {
    && 0 <= i <= |s| - |r| && r == s[i..i + |r|]
    && (forall k :: 0 <= k < i ==> IsSpace(s[k]))
    && (forall k :: i + |r| <= k < |s| ==> IsSpace(s[k]))
  }

  /** `trim` returns the middle of its input: a slice of `s` with nothing
      but white space cut off before and after it. */
  lemma TrimKeepsMiddle(s: string)
    ensures exists i :: MiddleAt(s, Trim(s), i)
  {
    var t := TrimStart(s);
    var r := Trim(s);
    var i := |s| - |t|;
    assert t == s[i..];
    assert r == t[..|r|];
    assert r == s[i..i + |r|];
    forall k | i + |r| <= k < |s|
      ensures IsSpace(s[k])
    {
      assert s[k] == t[k - i];
    }
    assert MiddleAt(s, r, i);
  }

  lemma TrimIdempotent(s: string)
    ensures Trim(Trim(s)) == Trim(s)
  {
    var t := Trim(s);
    if |t| > 0 {
      assert TrimStart(t) == t;
      assert TrimEnd(t) == t;
    }
  }

  /* ---------- replace(/\s+/g, c) ---------- */

  predicate AllSpace(s: string) {
    forall i :: 0 <= i < |s| ==> IsSpace(s[i])
  }

  /** `s.replace(/\s+/g, c)`: every maximal run of white space becomes one `c`. */
  function CollapseSpace(s: string, c: char): (r: string)
    ensures |r| <= |s|
    ensures |s| > 0 ==> |r| > 0 && r[0] == (if IsSpace(s[0]) then c else s[0])
    ensures forall i :: 0 <= i < |r| && IsSpace(r[i]) ==> r[i] == c
    ensures forall i, j :: 0 <= i && j == i + 1 && j < |r| ==> !(IsSpace(r[i]) && IsSpace(r[j]))
    decreases |s|
  {
    if |s| == 0 then ""
    else
      var head := if IsSpace(s[0]) then c else s[0];
      var tail := if IsSpace(s[0]) then TrimStart(s[1..]) else s[1..];
      var rest := CollapseSpace(tail, c);
      assert |rest| > 0 ==> !IsSpace(head) || !IsSpace(rest[0]);
      ConsPreservesCollapsed(head, rest, c);
      [head] + rest
  }

  /** Putting a character in front of collapsed text keeps it collapsed,
      provided no second space is created. */
  lemma ConsPreservesCollapsed(x: char, r: string, c: char)
    requires IsSpace(x) ==> x == c
    requires forall i :: 0 <= i < |r| && IsSpace(r[i]) ==> r[i] == c
    requires forall i, j :: 0 <= i && j == i + 1 && j < |r| ==> !(IsSpace(r[i]) && IsSpace(r[j]))
    requires |r| > 0 ==> !IsSpace(x) || !IsSpace(r[0])
    ensures forall i :: 0 <= i < |[x] + r| && IsSpace(([x] + r)[i]) ==> ([x] + r)[i] == c
    ensures forall i, j :: 0 <= i && j == i + 1 && j < |[x] + r| ==> !(IsSpace(([x] + r)[i]) && IsSpace(([x] + r)[j]))
  {
    var u := [x] + r;
    forall i | 0 < i < |u|
      ensures u[i] == r[i - 1]
    {
    }
  }

  /** Collapsing lower-case text with a lower-case `c` leaves no capital. */
  lemma {:induction false} CollapseNoUpper(s: string, c: char)
    requires !IsUpper(c)
    requires forall i :: 0 <= i < |s| ==> !IsUpper(s[i])
    ensures forall i :: 0 <= i < |CollapseSpace(s, c)| ==> !IsUpper(CollapseSpace(s, c)[i])
    decreases |s|
  {
    if |s| > 0 {
      var t := if IsSpace(s[0]) then TrimStart(s[1..]) else s[1..];
      var k := |s| - |t|;
      assert 0 < k && t == s[k..];
      var x := if IsSpace(s[0]) then c else s[0];
      SuffixNoUpper(s, k);
      CollapseNoUpper(t, c);
      CollapseStep(s, c);
      assert CollapseSpace(s, c) == [x] + CollapseSpace(t, c);
      ConsNoUpper(x, CollapseSpace(t, c));
    }
  }

  lemma SuffixNoUpper(s: string, k: nat)
    requires k <= |s|
    requires forall i :: 0 <= i < |s| ==> !IsUpper(s[i])
    ensures forall i :: 0 <= i < |s[k..]| ==> !IsUpper(s[k..][i])
  {
    forall i | 0 <= i < |s[k..]|
      ensures !IsUpper(s[k..][i])
    {
      assert s[k..][i] == s[k + i];
    }
  }

  lemma ConsNoUpper(x: char, r: string)
    requires !IsUpper(x)
    requires forall i :: 0 <= i < |r| ==> !IsUpper(r[i])
    ensures forall i :: 0 <= i < |[x] + r| ==> !IsUpper(([x] + r)[i])
  {
    forall i | 0 <= i < |[x] + r|
      ensures !IsUpper(([x] + r)[i])
    {
      if i > 0 {
        assert ([x] + r)[i] == r[i - 1];
      }
    }
  }

  /** Text without white space is left alone. */
  lemma {:induction false} CollapseWithoutSpace(s: string, c: char)
    requires NoSpace(s)
    ensures CollapseSpace(s, c) == s
    decreases |s|
  {
    if |s| > 0 {
      CollapseWithoutSpace(s[1..], c);
      assert [s[0]] + s[1..] == s;
    }
  }

  lemma {:induction false} TrimStartSpaceRun(w: string, b: string)
    requires AllSpace(w)
    requires |b| > 0 ==> !IsSpace(b[0])
    ensures TrimStart(w + b) == b
    decreases |w|
  {
    if |w| > 0 {
      assert (w + b)[1..] == w[1..] + b;
      TrimStartSpaceRun(w[1..], b);
    }
  }

  lemma {:induction false} TrimStartConcat(a: string, x: string)
    requires |a| > 0 && !IsSpace(a[|a| - 1])
    ensures TrimStart(a + x) == TrimStart(a) + x
    decreases |a|
  {
    if IsSpace(a[0]) {
      assert (a + x)[1..] == a[1..] + x;
      TrimStartConcat(a[1..], x);
    }
  }

  lemma CollapseLeadingRun(w: string, b: string, c: char)
    requires |w| > 0 && AllSpace(w)
    requires |b| > 0 ==> !IsSpace(b[0])
    ensures CollapseSpace(w + b, c) == [c] + CollapseSpace(b, c)
  {
    assert (w + b)[1..] == w[1..] + b;
    TrimStartSpaceRun(w[1..], b);
  }

  lemma CollapseStep(s: string, c: char)
    requires |s| > 0
    ensures IsSpace(s[0]) ==> CollapseSpace(s, c) == [c] + CollapseSpace(TrimStart(s[1..]), c)
    ensures !IsSpace(s[0]) ==> CollapseSpace(s, c) == [s[0]] + CollapseSpace(s[1..], c)
  {
  }

  lemma TrimStartKeepsLast(u: string)
    requires |u| > 0 && !IsSpace(u[|u| - 1])
    ensures var t := TrimStart(u); 0 < |t| < |u| + 1 && t[|t| - 1] == u[|u| - 1]
  {
    var t := TrimStart(u);
    assert !IsSpace(u[|u| - 1]);
    assert t == u[|u| - |t|..];
  }

  /** One run of white space between two non-space neighbours becomes exactly
      one `c`, and the text on either side is collapsed on its own. */
  lemma {:induction false} CollapseRun(a: string, w: string, b: string, c: char)
    requires |a| > 0 ==> !IsSpace(a[|a| - 1])
    requires |w| > 0 && AllSpace(w)
    requires |b| > 0 ==> !IsSpace(b[0])
    ensures CollapseSpace(a + w + b, c) == CollapseSpace(a, c) + [c] + CollapseSpace(b, c)
    decreases |a|, 1
  {
    if |a| == 0 {
      assert a + w + b == w + b;
      CollapseLeadingRun(w, b, c);
    } else if IsSpace(a[0]) {
      CollapseRunSpaceHead(a, w, b, c);
    } else {
      CollapseRunCharHead(a, w, b, c);
    }
  }

  lemma {:induction false} CollapseRunSpaceHead(a: string, w: string, b: string, c: char)
    requires |a| > 0 && IsSpace(a[0]) && !IsSpace(a[|a| - 1])
    requires |w| > 0 && AllSpace(w)
    requires |b| > 0 ==> !IsSpace(b[0])
    ensures CollapseSpace(a + w + b, c) == CollapseSpace(a, c) + [c] + CollapseSpace(b, c)
    decreases |a|, 0
  {
    var s := a + w + b;
    var t := TrimStart(a[1..]);
    SpaceHeadTrim(a, w, b);
    CollapseRun(t, w, b, c);
    CollapseStep(a, c);
    assert s[0] == a[0];
    CollapseStep(s, c);
    ConsAssoc(c, CollapseSpace(t, c), CollapseSpace(b, c));
  }

  /** Skipping the white space after a leading space of `a` stays inside `a`. */
  lemma SpaceHeadTrim(a: string, w: string, b: string)
    requires |a| > 0 && IsSpace(a[0]) && !IsSpace(a[|a| - 1])
    ensures var t := TrimStart(a[1..]);
            && 0 < |t| < |a| && !IsSpace(t[|t| - 1])
            && TrimStart((a + w + b)[1..]) == t + w + b
  {
    var u := a[1..];
    assert u[|u| - 1] == a[|a| - 1];
    TrimStartKeepsLast(u);
    TrimStartConcat(u, w + b);
    TailOfConcat(a, w, b);
    AppendAssoc(TrimStart(u), w, b);
  }

  lemma AppendAssoc(t: string, w: string, b: string)
    ensures t + (w + b) == t + w + b
  {
  }

  lemma TailOfConcat(a: string, w: string, b: string)
    requires |a| > 0
    ensures (a + w + b)[1..] == a[1..] + (w + b)
  {
    assert (a + w + b)[1..] == a[1..] + w + b;
  }

  lemma ConsAssoc(c: char, x: string, y: string)
    ensures [c] + (x + [c] + y) == ([c] + x) + [c] + y
  {
  }

  lemma {:induction false} CollapseRunCharHead(a: string, w: string, b: string, c: char)
    requires |a| > 0 && !IsSpace(a[0]) && !IsSpace(a[|a| - 1])
    requires |w| > 0 && AllSpace(w)
    requires |b| > 0 ==> !IsSpace(b[0])
    ensures CollapseSpace(a + w + b, c) == CollapseSpace(a, c) + [c] + CollapseSpace(b, c)
    decreases |a|, 0
  {
    var s := a + w + b;
    assert s[1..] == a[1..] + w + b;
    CollapseRun(a[1..], w, b, c);
    CollapseStep(a, c);
    CollapseStep(s, c);
  }

  /* ---------- includes ---------- */

  predicate StartsWith(s: string, p: string) {
    |p| <= |s| && s[..|p|] == p
  }

  /** `s.includes(sub)`. */
  predicate Contains(s: string, sub: string)
    decreases |s|
  {
    StartsWith(s, sub) || (|s| > 0 && Contains(s[1..], sub))
  }

  predicate OccursAt(s: string, sub: string, i: int) {
    0 <= i && i + |sub| <= |s| && s[i..i + |sub|] == sub
  }

  /** `includes` holds exactly when `sub` occurs at some offset of `s`. */
  lemma {:induction false} ContainsIffOccurs(s: string, sub: string)
    ensures Contains(s, sub) <==> exists i :: OccursAt(s, sub, i)
    decreases |s|
  {
    if Contains(s, sub) {
      if StartsWith(s, sub) {
        assert OccursAt(s, sub, 0);
      } else {
        ContainsIffOccurs(s[1..], sub);
        var j :| OccursAt(s[1..], sub, j);
        assert s[1..][j..j + |sub|] == s[j + 1..j + 1 + |sub|];
        assert OccursAt(s, sub, j + 1);
      }
    }
    if exists i :: OccursAt(s, sub, i) {
      var i :| OccursAt(s, sub, i);
      if i == 0 {
        assert StartsWith(s, sub);
      } else {
        assert s[1..][i - 1..i - 1 + |sub|] == s[i..i + |sub|];
        assert OccursAt(s[1..], sub, i - 1);
        ContainsIffOccurs(s[1..], sub);
      }
    }
  }

  /** Whatever a string includes, any string around it includes too. */
  lemma ContainsWithin(x: string, a: string, y: string, sub: string)
    requires Contains(a, sub)
    ensures Contains(x + a + y, sub)
  {
    ContainsIffOccurs(a, sub);
    var i :| OccursAt(a, sub, i);
    assert (x + a + y)[|x| + i..|x| + i + |sub|] == a[i..i + |sub|];
    ContainsAt(x + a + y, sub, |x| + i);
  }

  /** `includes` is transitive. */
  lemma ContainsTransitive(s: string, m: string, sub: string)
    requires Contains(s, m) && Contains(m, sub)
    ensures Contains(s, sub)
  {
    ContainsIffOccurs(s, m);
    var i :| OccursAt(s, m, i);
    assert s == s[..i] + m + s[i + |m|..];
    ContainsWithin(s[..i], m, s[i + |m|..], sub);
  }

  /** Use an offset as a witness for `includes`. */
  lemma ContainsAt(s: string, sub: string, i: int)
    requires OccursAt(s, sub, i)
    ensures Contains(s, sub)
  {
    ContainsIffOccurs(s, sub);
  }

  /* ---------- split / join ---------- */

  /** `s.split(sep)` for a one-character separator: one piece more than there
      are separators, none of them holding the separator. */
  function Split(s: string, sep: char): (parts: seq<string>)
    ensures |parts| == multiset(s)[sep] + 1
    ensures forall i :: 0 <= i < |parts| ==> sep !in parts[i]
    decreases |s|
  {
    if |s| == 0 then [""]
    else
      assert s == [s[0]] + s[1..];
      if s[0] == sep then [""] + Split(s[1..], sep)
      else
        var rest := Split(s[1..], sep);
        [[s[0]] + rest[0]] + rest[1..]
  }

  /** `parts.join(sep)`. */
  function Join(parts: seq<string>, sep: char): string
    decreases |parts|
  {
    if |parts| == 0 then ""
    else if |parts| == 1 then parts[0]
    else parts[0] + [sep] + Join(parts[1..], sep)
  }

  lemma {:induction false} SplitWithoutSeparator(a: string, sep: char)
    requires sep !in a
    ensures Split(a, sep) == [a]
    decreases |a|
  {
    if |a| > 0 {
      SplitWithoutSeparator(a[1..], sep);
      assert [a[0]] + a[1..] == a;
    }
  }

  lemma {:induction false} SplitPiece(a: string, b: string, sep: char)
    requires sep !in a
    ensures Split(a + [sep] + b, sep) == [a] + Split(b, sep)
    decreases |a|
  {
    var s := a + [sep] + b;
    if |a| == 0 {
      assert s[0] == sep && s[1..] == b;
    } else {
      assert s[0] == a[0] && s[1..] == a[1..] + [sep] + b;
      SplitPiece(a[1..], b, sep);
      assert [a[0]] + a[1..] == a;
    }
  }

  /** Splitting a join gives back the pieces, provided none holds the separator. */
  lemma {:induction false} SplitJoin(parts: seq<string>, sep: char)
    requires |parts| > 0
    requires forall i :: 0 <= i < |parts| ==> sep !in parts[i]
    ensures Split(Join(parts, sep), sep) == parts
    decreases |parts|
  {
    if |parts| == 1 {
      SplitWithoutSeparator(parts[0], sep);
    } else {
      SplitJoin(parts[1..], sep);
      SplitPiece(parts[0], Join(parts[1..], sep), sep);
      assert [parts[0]] + parts[1..] == parts;
    }
  }
}
