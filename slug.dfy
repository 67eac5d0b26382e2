/**
 * The admin form's `generateSlug(title)`: lower-case the title, turn every
 * run of characters outside `[a-z0-9]` into one '-', then drop a '-' at
 * either end.
 */
module EventSlug {
  import opened Strings

  predicate IsSlugAlnum(c: char) { IsLowerAscii(c) || IsDigit(c) }

  /** Every character is in the slug class `[a-z0-9-]`. */
  predicate SlugChars(s: string) {
    forall i :: 0 <= i < |s| ==> IsSlugAlnum(s[i]) || s[i] == '-'
  }

  predicate NoDoubleDash(s: string) {
    forall i :: 0 <= i < |s| - 1 ==> !(s[i] == '-' && s[i + 1] == '-')
  }

  predicate NoEdgeDash(s: string) {
    s == [] || (s[0] != '-' && s[|s| - 1] != '-')
  }

  /** The letters and digits of `s`, in order. */
  function Alnums(s: string): (r: string)
    ensures |r| <= |s|
  {
    if s == [] then []
    else (if IsSlugAlnum(s[0]) then [s[0]] else []) + Alnums(s[1..])
  }

  /** `s` without its leading characters outside `[a-z0-9]`. */
  function DropRun(s: string): (r: string)
    ensures |r| <= |s|
    ensures r == [] || IsSlugAlnum(r[0])
    ensures Alnums(r) == Alnums(s)
  {
    if s != [] && !IsSlugAlnum(s[0]) then DropRun(s[1..]) else s
  }

  /** `.replace(/[^a-z0-9]+/g, '-')`. */
  function Collapse(s: string): (r: string)
    ensures |r| <= |s| && SlugChars(r)
    decreases |s|
  {
    if s == [] then []
    else if IsSlugAlnum(s[0]) then [s[0]] + Collapse(s[1..])
    else "-" + Collapse(DropRun(s[1..]))
  }

  /** `.replace(/(^-|-$)/g, '')`: one leading and one trailing '-' go. */
  function StripEdges(s: string): (r: string)
    ensures var a := if |s| > 0 && s[0] == '-' then 1 else 0;
      a + |r| <= |s| && r == s[a..a + |r|]
      && (a + |r| < |s| ==> s[|s| - 1] == '-' && a + |r| == |s| - 1)
  {
    var a := if |s| > 0 && s[0] == '-' then s[1..] else s;
    if |a| > 0 && a[|a| - 1] == '-' then a[..|a| - 1] else a
  }

  /** `generateSlug(title)`: lower-case, collapse every run of other characters to '-', strip one '-' at each end. */
  function GenerateSlug(title: string): (r: string)
    ensures |r| <= |title| && SlugChars(r)
  {
    var c := Collapse(Lower(title));
    var r := StripEdges(c);
    assert forall i :: 0 <= i < |r| ==> r[i] in c;
    r
  }

  /**
   * What `Collapse` produces: slug characters only, no two dashes in a
   * row, and a first character that is the input's own when that is a
   * letter or digit.
   */
  lemma {:induction false} CollapseShape(s: string)
    ensures var r := Collapse(s);
      SlugChars(r) && NoDoubleDash(r)
      && (s != [] && IsSlugAlnum(s[0]) ==> r != [] && r[0] == s[0])
      && (s == [] <==> r == [])
    decreases |s|
  {
    if s != [] {
      var t := if IsSlugAlnum(s[0]) then Collapse(s[1..]) else Collapse(DropRun(s[1..]));
      if IsSlugAlnum(s[0]) {
        CollapseShape(s[1..]);
      } else {
        CollapseShape(DropRun(s[1..]));
      }
      var c := if IsSlugAlnum(s[0]) then s[0] else '-';
      assert Collapse(s) == [c] + t;
    }
  }

  /** `Collapse` keeps the letters and digits, in order. */
  lemma {:induction false} CollapseAlnums(s: string)
    ensures Alnums(Collapse(s)) == Alnums(s)
    decreases |s|
  {
    if s != [] {
      if IsSlugAlnum(s[0]) {
        CollapseAlnums(s[1..]);
        AlnumsCons(s[0], Collapse(s[1..]));
      } else {
        CollapseAlnums(DropRun(s[1..]));
        AlnumsCons('-', Collapse(DropRun(s[1..])));
      }
    }
  }

  lemma AlnumsCons(c: char, t: string)
    ensures Alnums([c] + t) == (if IsSlugAlnum(c) then [c] else []) + Alnums(t)
  {
    assert ([c] + t)[1..] == t;
  }

  /** Removing edge dashes keeps the slug class and the letters, and leaves no dash at an edge. */
  lemma StripEdgesShape(s: string)
    requires SlugChars(s) && NoDoubleDash(s)
    ensures var r := StripEdges(s);
      SlugChars(r) && NoDoubleDash(r) && NoEdgeDash(r) && Alnums(r) == Alnums(s)
  {
    var a := if |s| > 0 && s[0] == '-' then s[1..] else s;
    if |s| > 0 && s[0] == '-' {
      DropLeadingDash(s);
    }
    if |a| > 0 && a[|a| - 1] == '-' {
      DropTrailingDash(a);
    }
  }

  lemma DropLeadingDash(s: string)
    requires SlugChars(s) && NoDoubleDash(s) && |s| > 0 && s[0] == '-'
    ensures var a := s[1..];
      SlugChars(a) && NoDoubleDash(a) && Alnums(a) == Alnums(s) && (a == [] || a[0] != '-')
  {
    AlnumsCons('-', s[1..]);
    assert [s[0]] + s[1..] == s;
  }

  lemma DropTrailingDash(a: string)
    requires SlugChars(a) && NoDoubleDash(a) && |a| > 0 && a[|a| - 1] == '-'
    ensures var b := a[..|a| - 1];
      SlugChars(b) && NoDoubleDash(b) && Alnums(b) == Alnums(a)
      && (b == [] || (b[|b| - 1] != '-' && b[0] == a[0]))
  {
    var b := a[..|a| - 1];
    AlnumsSnoc(b, '-');
    assert b + ['-'] == a;
  }

  lemma {:induction false} AlnumsSnoc(t: string, c: char)
    ensures Alnums(t + [c]) == Alnums(t) + (if IsSlugAlnum(c) then [c] else [])
  {
    if t != [] {
      AlnumsSnoc(t[1..], c);
      assert (t + [c])[1..] == t[1..] + [c];
    } else {
      assert [] + [c] == [c];
    }
  }

  /**
   * A generated slug passes the slug character rule (`[a-z0-9-]`), never
   * starts or ends with '-', never holds "--", and keeps the title's
   * letters (lower-cased) and digits in order. It may still be shorter
   * than the three characters the event form demands.
   */
  lemma GenerateSlugShape(title: string)
    ensures var g := GenerateSlug(title);
      SlugChars(g) && NoEdgeDash(g) && NoDoubleDash(g) && Alnums(g) == Alnums(Lower(title))
  {
    CollapseShape(Lower(title));
    CollapseAlnums(Lower(title));
    StripEdgesShape(Collapse(Lower(title)));
  }

  /** The slug is empty exactly when the title has no ASCII letter or digit. */
  lemma GenerateSlugEmpty(title: string)
    ensures GenerateSlug(title) == [] <==> Alnums(Lower(title)) == []
  {
    GenerateSlugShape(title);
    var g := GenerateSlug(title);
    if g != [] {
      assert IsSlugAlnum(g[0]);
      AlnumsCons(g[0], g[1..]);
      assert [g[0]] + g[1..] == g;
    }
  }

  /** A string that already has the shape of a generated slug is left alone. */
  lemma {:induction false} CollapseFixed(s: string)
    requires SlugChars(s) && NoDoubleDash(s)
    ensures Collapse(s) == s
    decreases |s|
  {
    if s != [] {
      CollapseFixed(s[1..]);
      if !IsSlugAlnum(s[0]) {
        assert DropRun(s[1..]) == s[1..];
      }
    }
  }

  /** `generateSlug` is idempotent. */
  lemma GenerateSlugIdempotent(title: string)
    ensures GenerateSlug(GenerateSlug(title)) == GenerateSlug(title)
  {
    var g := GenerateSlug(title);
    GenerateSlugShape(title);
    assert NoUpper(g);
    LowerNoUpper(g);
    CollapseFixed(g);
  }

  /** A run of letters and digits passes through `Collapse` unchanged. */
  lemma {:induction false} CollapseWord(w: string, rest: string)
    requires forall i :: 0 <= i < |w| ==> IsSlugAlnum(w[i])
    ensures Collapse(w + rest) == w + Collapse(rest)
  {
    if w != [] {
      CollapseWord(w[1..], rest);
      assert (w + rest)[0] == w[0] && (w + rest)[1..] == w[1..] + rest;
      assert Collapse(w + rest) == [w[0]] + Collapse(w[1..] + rest);
      assert w == [w[0]] + w[1..];
      assert [w[0]] + (w[1..] + Collapse(rest)) == ([w[0]] + w[1..]) + Collapse(rest);
    } else {
      assert w + rest == rest && w + Collapse(rest) == Collapse(rest);
    }
  }

  /** A single separator before a word becomes a single '-'. */
  lemma CollapseSpace(c: char, rest: string)
    requires !IsSlugAlnum(c) && rest != [] && IsSlugAlnum(rest[0])
    ensures Collapse([c] + rest) == "-" + Collapse(rest)
  {
    assert ([c] + rest)[1..] == rest;
  }

  lemma LowerAppend(a: string, b: string)
    ensures Lower(a + b) == Lower(a) + Lower(b)
  {
  }

  /** Lower-cased title words consist of `[a-z0-9]`. */
  lemma LowerWordsAlnum(words: seq<string>)
    requires forall i :: 0 <= i < |words| ==> IsTitleWord(words[i])
    ensures var lw := LowerWords(words);
      forall i :: 0 <= i < |lw| ==> lw[i] != [] && forall k :: 0 <= k < |lw[i]| ==> IsSlugAlnum(lw[i][k])
  {
    var lw := LowerWords(words);
    forall i | 0 <= i < |lw|
      ensures lw[i] != [] && forall k :: 0 <= k < |lw[i]| ==> IsSlugAlnum(lw[i][k])
    {
      assert lw[i] == Lower(words[i]);
    }
  }

  lemma StripEdgesNoEdge(s: string)
    requires NoEdgeDash(s)
    ensures StripEdges(s) == s
  {
  }

  /** A word of ASCII letters and digits (of either case). */
  predicate IsTitleWord(w: string) {
    w != [] && forall i :: 0 <= i < |w| ==> IsSlugAlnum(LowerChar(w[i]))
  }

  function LowerWords(words: seq<string>): (r: seq<string>)
    ensures |r| == |words|
    ensures forall i :: 0 <= i < |words| ==> r[i] == Lower(words[i])
  {
    seq(|words|, i requires 0 <= i < |words| => Lower(words[i]))
  }

  lemma {:induction false} LowerJoin(words: seq<string>)
    requires |words| >= 1
    ensures Lower(Join(words, ' ')) == Join(LowerWords(words), ' ')
    decreases |words|
  {
    if |words| > 1 {
      LowerJoin(words[1..]);
      assert LowerWords(words[1..]) == LowerWords(words)[1..];
      LowerAppend(words[0] + [' '], Join(words[1..], ' '));
      LowerAppend(words[0], [' ']);
    }
  }

  lemma {:induction false} CollapseJoin(words: seq<string>)
    requires |words| >= 1
    requires forall i :: 0 <= i < |words| ==> words[i] != [] && forall k :: 0 <= k < |words[i]| ==> IsSlugAlnum(words[i][k])
    ensures Collapse(Join(words, ' ')) == Join(words, '-')
    decreases |words|
  {
    if |words| == 1 {
      CollapseWord(words[0], []);
      assert words[0] + [] == words[0];
    } else {
      var rest := Join(words[1..], ' ');
      CollapseJoin(words[1..]);
      assert rest[0] == words[1][0] by { JoinHead(words[1..], ' '); }
      CollapseSpace(' ', rest);
      CollapseWord(words[0], [' '] + rest);
      assert words[0] + [' '] + rest == words[0] + ([' '] + rest);
      assert Collapse([' '] + rest) == "-" + Join(words[1..], '-');
      assert words[0] + ("-" + Join(words[1..], '-')) == words[0] + ['-'] + Join(words[1..], '-');
    }
  }

  /** A join starts with its first part when that part is not empty. */
  lemma JoinHead(words: seq<string>, sep: char)
    requires |words| >= 1 && words[0] != []
    ensures Join(words, sep) != [] && Join(words, sep)[0] == words[0][0]
  {
  }

  lemma {:induction false} JoinLast(words: seq<string>, sep: char)
    requires |words| >= 1 && words[|words| - 1] != []
    ensures var j := Join(words, sep); j != [] && j[|j| - 1] == words[|words| - 1][|words[|words| - 1]| - 1]
    decreases |words|
  {
    if |words| > 1 {
      JoinLast(words[1..], sep);
    }
  }

  lemma SlugOfAlnumWords(lw: seq<string>)
    requires |lw| >= 1
    requires forall i :: 0 <= i < |lw| ==> lw[i] != [] && forall k :: 0 <= k < |lw[i]| ==> IsSlugAlnum(lw[i][k])
    ensures StripEdges(Collapse(Join(lw, ' '))) == Join(lw, '-')
  {
    CollapseJoin(lw);
    JoinHead(lw, '-');
    JoinLast(lw, '-');
    var j := Join(lw, '-');
    var first, last := lw[0], lw[|lw| - 1];
    assert IsSlugAlnum(first[0]) && IsSlugAlnum(last[|last| - 1]);
    StripEdgesNoEdge(j);
  }

  /**
   * A title of words made of ASCII letters and digits, separated by single
   * spaces, gives those words lower-cased and joined by '-': the form's
   * title placeholder "January DC Abundance Meetup" and its slug
   * placeholder "january-dc-abundance-meetup" are one instance.
   */
  lemma GenerateSlugOfWords(words: seq<string>)
    requires |words| >= 1 && forall i :: 0 <= i < |words| ==> IsTitleWord(words[i])
    ensures GenerateSlug(Join(words, ' ')) == Join(LowerWords(words), '-')
  {
    LowerJoin(words);
    LowerWordsAlnum(words);
    SlugOfAlnumWords(LowerWords(words));
  }
}
