/** `slugify` (src/lib/stringUtilities.js, lines 6-13): lower-case, trim,
    delete every character that is not a word character, whitespace or '-',
    turn each run of whitespace, '_' and '-' into one '-', and strip '-' from
    both ends.

    Lower-casing is modelled for ASCII only: 'A'-'Z' become 'a'-'z' and every
    other character is left as it is. */
module Slug {

  predicate IsUpper(c: char) {
    'A' <= c <= 'Z'
  }

  predicate IsLowerAlnum(c: char) {
    'a' <= c <= 'z' || '0' <= c <= '9'
  }

  /** ASCII letters and digits. */
  predicate IsAlnum(c: char) {
    IsUpper(c) || IsLowerAlnum(c)
  }

  /** The regular-expression class `\w`: `[A-Za-z0-9_]`. */
  predicate IsWord(c: char) {
    IsAlnum(c) || c == '_'
  }

  /** The regular-expression class `\s`, which is also the set `trim` removes:
      tab, line feed, vertical tab, form feed, carriage return, space,
      U+00A0, U+1680, U+2000-U+200A, U+2028, U+2029, U+202F, U+205F, U+3000
      and U+FEFF. */
  predicate IsSpace(c: char) {
    var n := c as int;
    (9 <= n <= 13) || n == 0x20 || n == 0xA0 || n == 0x1680 || (0x2000 <= n <= 0x200A)
    || n == 0x2028 || n == 0x2029 || n == 0x202F || n == 0x205F || n == 0x3000 || n == 0xFEFF
  }

  predicate IsHyphen(c: char) {
    c == '-'
  }

  /** The class `[\s_-]` whose runs become a single '-'. */
  predicate IsSeparator(c: char) {
    IsSpace(c) || c == '_' || c == '-'
  }

  /** The class `[\w\s-]` that survives the deletion of special characters. */
  predicate IsKept(c: char) {
    IsWord(c) || IsSpace(c) || c == '-'
  }

  /** Neither a word character, whitespace nor '-'. */
  predicate IsSpecial(c: char) {
    !IsKept(c)
  }

  predicate IsSlugChar(c: char) {
    IsLowerAlnum(c) || c == '-'
  }

  predicate AllAlnum(w: string) {
    forall i :: 0 <= i < |w| ==> IsAlnum(w[i])
  }

  predicate AllSlugChars(s: string) {
    forall i :: 0 <= i < |s| ==> IsSlugChar(s[i])
  }

  predicate NoDoubleHyphen(s: string) {
    forall i :: 0 <= i < |s| - 1 ==> !(s[i] == '-' && s[i + 1] == '-')
  }

  predicate NoEdgeHyphen(s: string) {
    s == [] || (s[0] != '-' && s[|s| - 1] != '-')
  }

  /** The shape of every slug: lower-case letters, digits and single '-'
      between them. */
  predicate IsSlug(s: string) {
    AllSlugChars(s) && NoDoubleHyphen(s) && NoEdgeHyphen(s)
  }

  function Lower(c: char): (l: char)
    ensures IsUpper(c) ==> IsLowerAlnum(l) && l as int == c as int + 32
    ensures !IsUpper(c) ==> l == c
  {
    if IsUpper(c) then (c as int + 32) as char else c
  }

  /** `toLowerCase()` */
  function LowerAll(s: string): (t: string)
    ensures |t| == |s| && forall i :: 0 <= i < |s| ==> t[i] == Lower(s[i])
  {
    seq(|s|, i requires 0 <= i < |s| => Lower(s[i]))
  }

  /** The letters and digits of `s`, in order. */
  function Alnums(s: string): string {
    if s == [] then [] else (if IsAlnum(s[0]) then [s[0]] else []) + Alnums(s[1..])
  }

  /** `s` with every '-' deleted. */
  function DropHyphens(s: string): string {
    if s == [] then [] else (if s[0] == '-' then [] else [s[0]]) + DropHyphens(s[1..])
  }

  lemma {:induction false} AlnumsAppend(a: string, b: string)
    ensures Alnums(a + b) == Alnums(a) + Alnums(b)
    decreases |a|
  {
    if a == [] {
      assert a + b == b;
    } else {
      var head := if IsAlnum(a[0]) then [a[0]] else [];
      assert (a + b)[0] == a[0] && (a + b)[1..] == a[1..] + b;
      assert Alnums(a + b) == head + Alnums(a[1..] + b);
      AlnumsAppend(a[1..], b);
      assert Alnums(a) == head + Alnums(a[1..]);
      assert head + (Alnums(a[1..]) + Alnums(b)) == (head + Alnums(a[1..])) + Alnums(b);
    }
  }

  /** A string without letters or digits contributes none. */
  lemma {:induction false} AlnumsNone(s: string)
    requires forall i :: 0 <= i < |s| ==> !IsAlnum(s[i])
    ensures Alnums(s) == []
    decreases |s|
  {
    if s != [] {
      AlnumsNone(s[1..]);
    }
  }

  /** Lower-casing and keeping letters and digits commute. */
  lemma {:induction false} AlnumsOfLower(s: string)
    ensures Alnums(LowerAll(s)) == LowerAll(Alnums(s))
    decreases |s|
  {
    if s != [] {
      assert LowerAll(s)[1..] == LowerAll(s[1..]);
      AlnumsOfLower(s[1..]);
      var head := if IsAlnum(s[0]) then [s[0]] else [];
      assert Alnums(s) == head + Alnums(s[1..]);
      assert LowerAll(head + Alnums(s[1..])) == LowerAll(head) + LowerAll(Alnums(s[1..]));
    }
  }

  /** On a string of letters, digits and '-', deleting the '-' keeps exactly
      the letters and digits. */
  lemma {:induction false} DropHyphensIsAlnums(s: string)
    requires forall i :: 0 <= i < |s| ==> IsAlnum(s[i]) || s[i] == '-'
    ensures DropHyphens(s) == Alnums(s)
    decreases |s|
  {
    if s != [] {
      DropHyphensIsAlnums(s[1..]);
    }
  }

  /** The length of the longest prefix of `s` whose characters satisfy `p`. */
  function LeadingRun(p: char -> bool, s: string): (k: nat)
    ensures k <= |s|
    ensures forall i :: 0 <= i < k ==> p(s[i])
    ensures k < |s| ==> !p(s[k])
    decreases |s|
  {
    if s != [] && p(s[0]) then 1 + LeadingRun(p, s[1..]) else 0
  }

  /** Scanning back from `b` towards `a`, the index just after the last
      character that does not satisfy `p`. */
  function BackOver(p: char -> bool, s: string, a: nat, b: nat): (e: nat)
    requires a <= b <= |s|
    ensures a <= e <= b
    ensures forall i :: e <= i < b ==> p(s[i])
    ensures e > a ==> !p(s[e - 1])
    decreases b
  {
    if b > a && p(s[b - 1]) then BackOver(p, s, a, b - 1) else b
  }

  /** Where the middle of `s` ends once the characters satisfying `p` are
      removed from both ends. */
  function StripEnd(p: char -> bool, s: string): (b: nat)
    ensures LeadingRun(p, s) <= b <= |s|
  {
    BackOver(p, s, LeadingRun(p, s), |s|)
  }

  /** `s` without the characters satisfying `p` at either end: the regular
      expressions `^p+` and `p+$` replaced by "". */
  function Strip(p: char -> bool, s: string): (t: string)
    ensures t == [] || (!p(t[0]) && !p(t[|t| - 1]))
  {
    s[LeadingRun(p, s)..StripEnd(p, s)]
  }

  /** Only characters satisfying `p` are removed, and only at the ends. */
  lemma StripRemovesEnds(p: char -> bool, s: string)
    ensures var a, b := LeadingRun(p, s), StripEnd(p, s);
            Strip(p, s) == s[a..b]
            && (forall i :: 0 <= i < a ==> p(s[i]))
            && (forall i :: b <= i < |s| ==> p(s[i]))
  {
  }

  /** Stripping changes nothing when neither end satisfies `p`. */
  lemma StripIdentity(p: char -> bool, s: string)
    requires s == [] || (!p(s[0]) && !p(s[|s| - 1]))
    ensures Strip(p, s) == s
  {
    assert s[0..] == s;
  }

  /** A middle piece of `s` whose ends hold no letters or digits keeps all of
      them. */
  lemma PieceAlnums(s: string, a: nat, b: nat)
    requires a <= b <= |s|
    requires forall i :: 0 <= i < a ==> !IsAlnum(s[i])
    requires forall i :: b <= i < |s| ==> !IsAlnum(s[i])
    ensures Alnums(s[a..b]) == Alnums(s)
  {
    DropNonAlnums(s, a);
    KeepBeforeNonAlnums(s, a, b);
  }

  lemma DropNonAlnums(s: string, a: nat)
    requires a <= |s| && forall i :: 0 <= i < a ==> !IsAlnum(s[i])
    ensures Alnums(s[a..]) == Alnums(s)
  {
    assert s == s[..a] + s[a..];
    AlnumsAppend(s[..a], s[a..]);
    AlnumsNone(s[..a]);
  }

  lemma KeepBeforeNonAlnums(s: string, a: nat, b: nat)
    requires a <= b <= |s| && forall i :: b <= i < |s| ==> !IsAlnum(s[i])
    ensures Alnums(s[a..b]) == Alnums(s[a..])
  {
    assert s[a..] == s[a..b] + s[b..];
    AlnumsAppend(s[a..b], s[b..]);
    AlnumsNone(s[b..]);
  }

  /** A piece of a string without "--" has none either. */
  lemma PieceNoDouble(s: string, a: nat, b: nat)
    requires a <= b <= |s| && NoDoubleHyphen(s)
    ensures NoDoubleHyphen(s[a..b])
  {
    var t := s[a..b];
    forall i | 0 <= i < |t| - 1 ensures !(t[i] == '-' && t[i + 1] == '-') {
      assert t[i] == s[a + i] && t[i + 1] == s[a + i + 1];
    }
  }

  /** `trim()` */
  function Trim(s: string): (t: string)
    ensures t == [] || (!IsSpace(t[0]) && !IsSpace(t[|t| - 1]))
  {
    Strip(IsSpace, s)
  }

  /** `.replace(/^-+|-+$/g, "")` */
  function StripHyphens(s: string): (t: string)
    ensures NoEdgeHyphen(t)
  {
    Strip(IsHyphen, s)
  }

  /** `.replace(/[^\w\s-]/g, "")`: delete every character that is not a word
      character, whitespace or '-'. */
  function StripSpecial(s: string): (t: string)
    ensures forall i :: 0 <= i < |t| ==> IsKept(t[i])
    ensures (forall i :: 0 <= i < |s| ==> IsKept(s[i])) ==> t == s
    decreases |s|
  {
    if s == [] then []
    else
      var rest := StripSpecial(s[1..]);
      if IsKept(s[0]) then [s[0]] + rest else rest
  }

  /** Deleting special characters keeps every letter and digit, and adds no
      upper-case letter. */
  lemma {:induction false} StripSpecialKeeps(s: string)
    ensures Alnums(StripSpecial(s)) == Alnums(s)
    ensures (forall i :: 0 <= i < |s| ==> !IsUpper(s[i])) ==>
              forall i :: 0 <= i < |StripSpecial(s)| ==> !IsUpper(StripSpecial(s)[i])
    decreases |s|
  {
    if s != [] {
      StripSpecialKeeps(s[1..]);
      if IsKept(s[0]) {
        AlnumsAppend([s[0]], StripSpecial(s[1..]));
      }
    }
  }

  /** `.replace(/[\s_-]+/g, "-")`: each maximal run of separators becomes one
      '-'; every other character is kept. The result never has two '-' in a
      row, and it starts with '-' exactly when the input starts with a
      separator. */
  function Collapse(s: string): (t: string)
    ensures NoDoubleHyphen(t)
    ensures |t| == 0 <==> |s| == 0
    ensures t != [] ==> (t[0] == '-' <==> IsSeparator(s[0]))
    decreases |s|
  {
    if s == [] then []
    else if IsSeparator(s[0]) then
      var k := LeadingRun(IsSeparator, s);
      "-" + Collapse(s[k..])
    else
      [s[0]] + Collapse(s[1..])
  }

  /** A character that can reach `Collapse` from a lower-cased, stripped string. */
  predicate IsCleaned(c: char) {
    !IsUpper(c) && IsKept(c)
  }

  /** Collapsing a cleaned string leaves only slug characters. */
  lemma {:induction false} CollapseAlphabet(s: string)
    requires forall i :: 0 <= i < |s| ==> IsCleaned(s[i])
    ensures AllSlugChars(Collapse(s))
    decreases |s|
  {
    if s != [] {
      if IsSeparator(s[0]) {
        var k := LeadingRun(IsSeparator, s);
        assert forall i :: 0 <= i < |s| - k ==> s[k..][i] == s[k + i];
        CollapseAlphabet(s[k..]);
      } else {
        assert forall i :: 0 <= i < |s| - 1 ==> s[1..][i] == s[i + 1];
        CollapseAlphabet(s[1..]);
      }
    }
  }

  /** Collapsing keeps every letter and digit, in order. */
  lemma {:induction false} CollapseAlnums(s: string)
    ensures Alnums(Collapse(s)) == Alnums(s)
    decreases |s|
  {
    if s != [] {
      if IsSeparator(s[0]) {
        var k := LeadingRun(IsSeparator, s);
        CollapseAlnums(s[k..]);
        assert Alnums("-") == [];
        AlnumsAppend("-", Collapse(s[k..]));
        DropNonAlnums(s, k);
      } else {
        CollapseAlnums(s[1..]);
        AlnumsAppend([s[0]], Collapse(s[1..]));
      }
    }
  }

  /** Lower-case, trim and delete special characters: what remains are
      lower-case letters, digits, '_', whitespace and '-', and the letters and
      digits are those of `s`, lower-cased. */
  function Clean(s: string): (t: string)
    ensures forall i :: 0 <= i < |t| ==> IsCleaned(t[i])
    ensures Alnums(t) == LowerAll(Alnums(s))
  {
    var lowered := LowerAll(s);
    TrimKeeps(lowered);
    StripSpecialKeeps(Trim(lowered));
    AlnumsOfLower(s);
    StripSpecial(Trim(lowered))
  }

  /** Trimming a lower-cased string keeps its letters and digits and adds no
      upper-case letter. */
  lemma TrimKeeps(l: string)
    requires forall i :: 0 <= i < |l| ==> !IsUpper(l[i])
    ensures Alnums(Trim(l)) == Alnums(l)
    ensures forall i :: 0 <= i < |Trim(l)| ==> !IsUpper(Trim(l)[i])
  {
    StripRemovesEnds(IsSpace, l);
    PieceAlnums(l, LeadingRun(IsSpace, l), StripEnd(IsSpace, l));
  }

  /** Stripping edge hyphens from a collapsed string gives a slug with the
      same letters and digits. */
  lemma StripHyphensKeeps(c: string)
    requires AllSlugChars(c) && NoDoubleHyphen(c)
    ensures IsSlug(StripHyphens(c))
    ensures Alnums(StripHyphens(c)) == Alnums(c)
  {
    var a, b := LeadingRun(IsHyphen, c), StripEnd(IsHyphen, c);
    StripRemovesEnds(IsHyphen, c);
    PieceNoDouble(c, a, b);
    PieceAlnums(c, a, b);
  }

  /** `slugify(str)`. The result is a slug whose letters and digits are those
      of the input, lower-cased and in order. */
  function Slugify(s: string): (r: string)
    ensures IsSlug(r)
    ensures DropHyphens(r) == LowerAll(Alnums(s))
  {
    var kept := Clean(s);
    CollapseAlphabet(kept);
    CollapseAlnums(kept);
    StripHyphensKeeps(Collapse(kept));
    DropHyphensIsAlnums(StripHyphens(Collapse(kept)));
    StripHyphens(Collapse(kept))
  }

  /** `Collapse` changes nothing in a string of slug characters without two
      '-' in a row. */
  lemma {:induction false} CollapseKeepsSlug(t: string)
    requires AllSlugChars(t) && NoDoubleHyphen(t)
    ensures Collapse(t) == t
    decreases |t|
  {
    if t != [] {
      var rest := t[1..];
      assert forall i :: 0 <= i < |rest| ==> rest[i] == t[i + 1];
      if t[0] == '-' {
        assert LeadingRun(IsSeparator, t) == 1 by {
          assert rest == [] || !IsSeparator(rest[0]);
        }
      }
      CollapseKeepsSlug(rest);
      assert t == [t[0]] + rest;
    }
  }

  /** A string that is already a slug is its own slug. */
  lemma SlugIsFixedPoint(t: string)
    requires IsSlug(t)
    ensures Slugify(t) == t
  {
    assert LowerAll(t) == t;
    StripIdentity(IsSpace, t);
    CollapseKeepsSlug(t);
    StripIdentity(IsHyphen, t);
  }

  /** `slugify` is idempotent. */
  lemma SlugifyIdempotent(s: string)
    ensures Slugify(Slugify(s)) == Slugify(s)
  {
    SlugIsFixedPoint(Slugify(s));
  }

  /** An input without letters or digits has the empty slug. */
  lemma NoAlnumsEmptySlug(s: string)
    requires forall i :: 0 <= i < |s| ==> !IsAlnum(s[i])
    ensures Slugify(s) == ""
  {
    AlnumsNone(s);
  }

  lemma LowerAppend(a: string, b: string)
    ensures LowerAll(a + b) == LowerAll(a) + LowerAll(b)
  {
    assert forall i :: 0 <= i < |a + b| ==> LowerAll(a + b)[i] == (LowerAll(a) + LowerAll(b))[i];
  }

  /** Lower-casing two words around a middle without upper-case letters. */
  lemma LowerJoin(w1: string, mid: string, w2: string)
    requires AllAlnum(w1) && AllAlnum(w2)
    requires forall i :: 0 <= i < |mid| ==> !IsUpper(mid[i])
    ensures LowerAll(w1 + mid + w2) == LowerAll(w1) + mid + LowerAll(w2)
    ensures forall i :: 0 <= i < |w1| ==> IsLowerAlnum(LowerAll(w1)[i])
    ensures forall i :: 0 <= i < |w2| ==> IsLowerAlnum(LowerAll(w2)[i])
  {
    assert LowerAll(mid) == mid;
    LowerAppend(w1 + mid, w2);
    LowerAppend(w1, mid);
  }

  lemma {:induction false} StripSpecialAppend(a: string, b: string)
    ensures StripSpecial(a + b) == StripSpecial(a) + StripSpecial(b)
    decreases |a|
  {
    if a == [] {
      assert a + b == b;
    } else {
      assert (a + b)[0] == a[0] && (a + b)[1..] == a[1..] + b;
      StripSpecialAppend(a[1..], b);
    }
  }

  lemma {:induction false} StripSpecialDropsAll(p: string)
    requires forall i :: 0 <= i < |p| ==> IsSpecial(p[i])
    ensures StripSpecial(p) == []
    decreases |p|
  {
    if p != [] {
      StripSpecialDropsAll(p[1..]);
    }
  }

  /** Characters before the first separator pass through `Collapse`. */
  lemma {:induction false} CollapseWordPrefix(w: string, t: string)
    requires forall i :: 0 <= i < |w| ==> !IsSeparator(w[i])
    ensures Collapse(w + t) == w + Collapse(t)
    decreases |w|
  {
    if w == [] {
      assert w + t == t;
    } else {
      assert (w + t)[0] == w[0] && (w + t)[1..] == w[1..] + t;
      CollapseWordPrefix(w[1..], t);
      assert w == [w[0]] + w[1..];
    }
  }

  /** A whole run of separators becomes one '-'. */
  lemma CollapseRun(run: string, t: string)
    requires |run| > 0 && forall i :: 0 <= i < |run| ==> IsSeparator(run[i])
    requires t == [] || !IsSeparator(t[0])
    ensures Collapse(run + t) == "-" + Collapse(t)
  {
    var s := run + t;
    RunLength(run, t);
    assert s[|run|..] == t;
  }

  /** The separator run at the front of `run + t` is exactly `run`. */
  lemma {:induction false} RunLength(run: string, t: string)
    requires forall i :: 0 <= i < |run| ==> IsSeparator(run[i])
    requires t == [] || !IsSeparator(t[0])
    ensures LeadingRun(IsSeparator, run + t) == |run|
    decreases |run|
  {
    if run == [] {
      assert run + t == t;
    } else {
      assert (run + t)[0] == run[0] && (run + t)[1..] == run[1..] + t;
      RunLength(run[1..], t);
    }
  }

  /** Collapsing two lower-case words joined by a run of separators. */
  lemma CollapseJoined(l1: string, run: string, l2: string)
    requires forall i :: 0 <= i < |l1| ==> IsLowerAlnum(l1[i])
    requires forall i :: 0 <= i < |l2| ==> IsLowerAlnum(l2[i])
    requires |run| > 0 && forall i :: 0 <= i < |run| ==> IsSeparator(run[i])
    ensures Collapse(l1 + run + l2) == l1 + "-" + l2
  {
    CollapseWordPrefix(l1, run + l2);
    assert l1 + (run + l2) == l1 + run + l2;
    CollapseRun(run, l2);
    CollapseKeepsSlug(l2);
  }

  /** Cleaning keeps two lower-case words and the run of separators between
      them. */
  lemma CleanKeepsSeparators(s: string, l1: string, run: string, l2: string)
    requires LowerAll(s) == l1 + run + l2 && |l1| > 0 && |l2| > 0
    requires forall i :: 0 <= i < |l1| ==> IsLowerAlnum(l1[i])
    requires forall i :: 0 <= i < |l2| ==> IsLowerAlnum(l2[i])
    requires forall i :: 0 <= i < |run| ==> IsSeparator(run[i])
    ensures Clean(s) == l1 + run + l2
  {
    var l := l1 + run + l2;
    assert l[0] == l1[0] && l[|l| - 1] == l2[|l2| - 1];
    StripIdentity(IsSpace, l);
    forall i | 0 <= i < |l| ensures IsKept(l[i]) {
      if i < |l1| {
        assert l[i] == l1[i];
      } else if i < |l1| + |run| {
        assert l[i] == run[i - |l1|];
      } else {
        assert l[i] == l2[i - |l1| - |run|];
      }
    }
  }

  /** Cleaning deletes the special characters between two lower-case words. */
  lemma CleanDropsPunctuation(s: string, l1: string, p: string, l2: string)
    requires LowerAll(s) == l1 + p + l2 && |l1| > 0 && |l2| > 0
    requires forall i :: 0 <= i < |l1| ==> IsLowerAlnum(l1[i])
    requires forall i :: 0 <= i < |l2| ==> IsLowerAlnum(l2[i])
    requires forall i :: 0 <= i < |p| ==> IsSpecial(p[i])
    ensures Clean(s) == l1 + l2
  {
    var l := l1 + p + l2;
    assert l[0] == l1[0] && l[|l| - 1] == l2[|l2| - 1];
    StripIdentity(IsSpace, l);
    StripSpecialJoin(l1, p, l2);
  }

  lemma StripSpecialJoin(l1: string, p: string, l2: string)
    requires forall i :: 0 <= i < |l1| ==> IsLowerAlnum(l1[i])
    requires forall i :: 0 <= i < |l2| ==> IsLowerAlnum(l2[i])
    requires forall i :: 0 <= i < |p| ==> IsSpecial(p[i])
    ensures StripSpecial(l1 + p + l2) == l1 + l2
  {
    assert StripSpecial(l1) == l1;
    assert StripSpecial(l2) == l2;
    StripSpecialDropsAll(p);
    StripSpecialAppend(l1, p);
    assert StripSpecial(l1 + p) == l1;
    StripSpecialAppend(l1 + p, l2);
  }

  /** `slugify` of a string that cleans to `kept` and collapses to `c`, when
      `c` has no '-' at either end. */
  lemma SlugifyOfClean(s: string, kept: string, c: string)
    requires Clean(s) == kept && Collapse(kept) == c && NoEdgeHyphen(c)
    ensures Slugify(s) == c
  {
    StripIdentity(IsHyphen, c);
  }

  /** Two words separated by any run of whitespace, '_' and '-' are joined by
      a single '-'. */
  lemma SeparatorRunCollapses(w1: string, run: string, w2: string)
    requires |w1| > 0 && |w2| > 0 && AllAlnum(w1) && AllAlnum(w2)
    requires |run| > 0 && forall i :: 0 <= i < |run| ==> IsSeparator(run[i])
    ensures Slugify(w1 + run + w2) == LowerAll(w1) + "-" + LowerAll(w2)
  {
    var l1, l2 := LowerAll(w1), LowerAll(w2);
    LowerJoin(w1, run, w2);
    CleanKeepsSeparators(w1 + run + w2, l1, run, l2);
    CollapseJoined(l1, run, l2);
    var c := l1 + "-" + l2;
    assert c[0] == l1[0] && c[|c| - 1] == l2[|l2| - 1];
    SlugifyOfClean(w1 + run + w2, l1 + run + l2, c);
  }

  /** Punctuation between two words is deleted without leaving a separator. */
  lemma PunctuationDeleted(w1: string, p: string, w2: string)
    requires |w1| > 0 && |w2| > 0 && AllAlnum(w1) && AllAlnum(w2)
    requires forall i :: 0 <= i < |p| ==> IsSpecial(p[i])
    ensures Slugify(w1 + p + w2) == LowerAll(w1) + LowerAll(w2)
  {
    var l1, l2 := LowerAll(w1), LowerAll(w2);
    LowerJoin(w1, p, w2);
    CleanDropsPunctuation(w1 + p + w2, l1, p, l2);
    var c := l1 + l2;
    assert forall i :: 0 <= i < |c| ==> IsLowerAlnum(c[i]);
    CollapseKeepsSlug(c);
    assert c[0] == l1[0] && c[|c| - 1] == l2[|l2| - 1];
    SlugifyOfClean(w1 + p + w2, c, c);
  }
}
