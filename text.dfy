/** The string primitives the line codecs are built from, stated as Python's
    str methods behave: strip, strip(chars), split(sep), sep.join, startswith,
    the first index of a character, and upper (ASCII letters only). */
module Text {

  /** Python's str.isspace(): the characters a bare strip() removes from
      both ends. */
  predicate IsSpace(c: char)
  {
    || '\t' <= c <= '\r'
    || '\U{001C}' <= c <= ' '
    || c == '\U{0085}' || c == '\U{00A0}' || c == '\U{1680}'
    || '\U{2000}' <= c <= '\U{200A}'
    || c == '\U{2028}' || c == '\U{2029}' || c == '\U{202F}' || c == '\U{205F}' || c == '\U{3000}'
  }

  /** The characters a bare strip() removes. */
  const Whitespace: set<char> := set c: char | IsSpace(c)

  /** The field separator of every stored line. */
  const FieldSep: char := '|'

  predicate AllIn(s: string, cs: set<char>)
  {
    forall k :: 0 <= k < |s| ==> s[k] in cs
  }

  /** No character of cs at either end: what a strip leaves behind. */
  predicate Trimmed(f: string, cs: set<char>)
  {
    f == [] || (f[0] !in cs && f[|f| - 1] !in cs)
  }

  /** A field that survives being written between separators and read back:
      no separator inside, no whitespace at either end. */
  predicate Bare(f: string)
  {
    FieldSep !in f && Trimmed(f, Whitespace)
  }

  /** No character at which reading a text file line by line (universal
      newlines) would cut. */
  predicate OneLine(f: string)
  {
    '\n' !in f && '\r' !in f
  }

  /** A text that reading a file line by line gives back whole: its only
      line break is the one at its end. */
  predicate FileLine(l: string)
  {
    |l| > 0 && l[|l| - 1] == '\n' && OneLine(l[..|l| - 1])
  }

  /** A text without line breaks, then a newline, is one file line. */
  lemma EndedLine(body: string)
    requires OneLine(body)
    ensures FileLine(body + "\n")
  {
    assert (body + "\n")[..|body|] == body;
  }

  /** Python's s.lstrip(chars). */
  function TrimStart(s: string, cs: set<char>): (r: string)
    ensures |r| <= |s| && r == s[|s| - |r|..]
    ensures forall k :: 0 <= k < |s| - |r| ==> s[k] in cs
    ensures r == [] || r[0] !in cs
  {
    if |s| > 0 && s[0] in cs then TrimStart(s[1..], cs) else s
  }

  /** Python's s.rstrip(chars). */
  function TrimEnd(s: string, cs: set<char>): (r: string)
    ensures |r| <= |s| && r == s[..|r|]
    ensures forall k :: |r| <= k < |s| ==> s[k] in cs
    ensures r == [] || r[|r| - 1] !in cs
  {
    if |s| > 0 && s[|s| - 1] in cs then TrimEnd(s[..|s| - 1], cs) else s
  }

  /** Python's s.strip(chars). */
  function Trim(s: string, cs: set<char>): string
  {
    TrimEnd(TrimStart(s, cs), cs)
  }

  /** Python's s.strip(). */
  function Strip(s: string): string
  {
    Trim(s, Whitespace)
  }

  /** Leading characters of cs never change what lstrip leaves. */
  lemma {:induction false} TrimStartAbsorbs(pre: string, s: string, cs: set<char>)
    requires AllIn(pre, cs)
    ensures TrimStart(pre + s, cs) == TrimStart(s, cs)
    decreases |pre|
  {
    if pre != [] {
      assert (pre + s)[0] == pre[0] && (pre + s)[1..] == pre[1..] + s;
      TrimStartAbsorbs(pre[1..], s, cs);
    } else {
      assert pre + s == s;
    }
  }

  /** Trailing characters of cs never change what rstrip leaves. */
  lemma {:induction false} TrimEndAbsorbs(s: string, post: string, cs: set<char>)
    requires AllIn(post, cs)
    ensures TrimEnd(s + post, cs) == TrimEnd(s, cs)
    decreases |post|
  {
    if post != [] {
      var x := s + post;
      assert x[|x| - 1] == post[|post| - 1] && x[..|x| - 1] == s + post[..|post| - 1];
      TrimEndAbsorbs(s, post[..|post| - 1], cs);
    } else {
      assert s + post == s;
    }
  }

  /** lstrip of a concatenation: the second part only matters once the first
      is used up. */
  lemma {:induction false} TrimStartAppend(s: string, post: string, cs: set<char>)
    ensures TrimStart(s + post, cs) ==
      if TrimStart(s, cs) == [] then TrimStart(post, cs) else TrimStart(s, cs) + post
    decreases |s|
  {
    if s == [] {
      assert s + post == post;
    } else {
      assert (s + post)[0] == s[0] && (s + post)[1..] == s[1..] + post;
      TrimStartAppend(s[1..], post, cs);
    }
  }

  lemma TrimStartDecompose(s: string, cs: set<char>) returns (pre: string)
    ensures s == pre + TrimStart(s, cs) && AllIn(pre, cs)
  {
    var t := TrimStart(s, cs);
    pre := s[..|s| - |t|];
    assert s == pre + s[|s| - |t|..];
    assert forall k :: 0 <= k < |pre| ==> pre[k] == s[k];
  }

  lemma TrimEndDecompose(s: string, cs: set<char>) returns (post: string)
    ensures s == TrimEnd(s, cs) + post && AllIn(post, cs)
  {
    var r := TrimEnd(s, cs);
    post := s[|r|..];
    assert s == s[..|r|] + post;
    assert forall k :: 0 <= k < |post| ==> post[k] == s[|r| + k];
  }

  /** What Trim removes is a run of cs on each side. */
  lemma TrimDecompose(s: string, cs: set<char>) returns (pre: string, post: string)
    ensures s == pre + Trim(s, cs) + post
    ensures AllIn(pre, cs) && AllIn(post, cs)
  {
    var t := TrimStart(s, cs);
    pre := TrimStartDecompose(s, cs);
    post := TrimEndDecompose(t, cs);
    Assoc(pre, TrimEnd(t, cs), post);
  }

  /** Trim leaves no character of cs at either end, and keeps only characters
      of s. */
  lemma TrimTrims(s: string, cs: set<char>)
    ensures Trimmed(Trim(s, cs), cs)
    ensures forall c :: c in Trim(s, cs) ==> c in s
  {
    var t := TrimStart(s, cs);
    var r := TrimEnd(t, cs);
    if r != [] {
      assert r[0] == t[0];
    }
    assert forall c :: c in r ==> c in t;
    assert forall c :: c in t ==> c in s;
  }

  /** Padding made of cs around an already trimmed text is exactly what Trim
      takes away. */
  lemma TrimPadded(pre: string, f: string, post: string, cs: set<char>)
    requires AllIn(pre, cs) && AllIn(post, cs) && Trimmed(f, cs)
    ensures Trim(pre + f + post, cs) == f
  {
    assert pre + f + post == pre + (f + post);
    TrimStartAbsorbs(pre, f + post, cs);
    TrimStartAppend(f, post, cs);
    if f == [] {
      assert TrimStart(post, cs) == [] by {
        TrimStartAbsorbs(post, [], cs);
        assert post + [] == post;
      }
    } else {
      TrimEndAbsorbs(f, post, cs);
    }
  }

  /** A trimmed text is its own trim. */
  lemma TrimmedIsFixed(f: string, cs: set<char>)
    requires Trimmed(f, cs)
    ensures Trim(f, cs) == f
  {
    assert TrimStart(f, cs) == f by {
      if f != [] {
        assert f[0] !in cs;
      }
    }
    assert TrimEnd(f, cs) == f by {
      if f != [] {
        assert f[|f| - 1] !in cs;
      }
    }
  }

  /** Trimming ignores extra padding of cs. */
  lemma TrimAbsorbsPadding(pre: string, s: string, post: string, cs: set<char>)
    requires AllIn(pre, cs) && AllIn(post, cs)
    ensures Trim(pre + s + post, cs) == Trim(s, cs)
  {
    assert pre + s + post == pre + (s + post);
    TrimStartAbsorbs(pre, s + post, cs);
    TrimStartAppend(s, post, cs);
    if TrimStart(s, cs) == [] {
      TrimStartAbsorbs(post, [], cs);
      assert post + [] == post;
    } else {
      TrimEndAbsorbs(TrimStart(s, cs), post, cs);
    }
  }

  /** Python's sep.join(parts) for a one-character separator. */
  function JoinWith(parts: seq<string>, sep: char): string
  {
    if |parts| == 0 then ""
    else if |parts| == 1 then parts[0]
    else parts[0] + [sep] + JoinWith(parts[1..], sep)
  }

  /** A character found in no part and different from the separator is not
      in the join. */
  lemma {:induction false} JoinWithAvoids(parts: seq<string>, sep: char, c: char)
    requires c != sep
    requires forall i :: 0 <= i < |parts| ==> c !in parts[i]
    ensures c !in JoinWith(parts, sep)
  {
    if |parts| > 1 {
      JoinWithAvoids(parts[1..], sep, c);
    }
  }

  /** A join of non-empty parts starts with the first part's first character
      and ends with the last part's last character. */
  lemma {:induction false} JoinWithEnds(parts: seq<string>, sep: char)
    requires |parts| >= 1
    requires forall i :: 0 <= i < |parts| ==> parts[i] != []
    ensures var j := JoinWith(parts, sep);
      j != [] && j[0] == parts[0][0] && j[|j| - 1] == parts[|parts| - 1][|parts[|parts| - 1]| - 1]
  {
    if |parts| > 1 {
      JoinWithEnds(parts[1..], sep);
    }
  }

  /** Where s.split(c, 1) cuts: the first occurrence of c. */
  function IndexOf(s: string, c: char): (i: nat)
    requires c in s
    ensures i < |s| && s[i] == c && c !in s[..i]
  {
    if s[0] == c then 0
    else
      var j := IndexOf(s[1..], c);
      assert s[..j + 1] == [s[0]] + s[1..][..j];
      j + 1
  }

  /** The first occurrence is the one with no occurrence before it. */
  lemma IndexOfFirst(s: string, c: char, j: nat)
    requires j < |s| && s[j] == c && c !in s[..j]
    ensures c in s && IndexOf(s, c) == j
  {
    var i := IndexOf(s, c);
  }

  /** Python's s.split(sep): the text up to the first separator, then the
      split of the rest; a text without a separator is a single part. */
  function Split(s: string, sep: char): (parts: seq<string>)
    ensures |parts| >= 1
    decreases |s|
  {
    if sep in s then
      var i := IndexOf(s, sep);
      [s[..i]] + Split(s[i + 1..], sep)
    else [s]
  }

  /** No part of a split holds the separator. */
  lemma {:induction false} SplitPartsFree(s: string, sep: char)
    ensures forall i :: 0 <= i < |Split(s, sep)| ==> sep !in Split(s, sep)[i]
    decreases |s|
  {
    if sep in s {
      var i := IndexOf(s, sep);
      SplitPartsFree(s[i + 1..], sep);
      var parts := Split(s, sep);
      assert forall k :: 1 <= k < |parts| ==> parts[k] == Split(s[i + 1..], sep)[k - 1];
    }
  }

  /** Joining the parts of a split at the same separator gives the text back. */
  lemma {:induction false} JoinSplit(s: string, sep: char)
    ensures JoinWith(Split(s, sep), sep) == s
    decreases |s|
  {
    if sep in s {
      var i := IndexOf(s, sep);
      var rest := Split(s[i + 1..], sep);
      JoinSplit(s[i + 1..], sep);
      var parts := Split(s, sep);
      assert parts[1..] == rest;
      assert s == s[..i] + [sep] + s[i + 1..];
    }
  }

  lemma Assoc(a: string, b: string, c: string)
    ensures a + (b + c) == a + b + c
  {
  }

  lemma SplitPlain(x: string, sep: char)
    requires sep !in x
    ensures Split(x, sep) == [x]
  {
  }

  /** A split cuts at the first separator. */
  lemma SplitAt(s: string, i: nat, sep: char)
    requires i < |s| && s[i] == sep && sep !in s[..i]
    ensures Split(s, sep) == [s[..i]] + Split(s[i + 1..], sep)
  {
    IndexOfFirst(s, sep, i);
  }

  /** Regrouping a concatenation, stated over names so that the solver never
      has to regroup the sequences they stand for. */
  lemma Regroup<T>(l: seq<T>, m: seq<T>, a: seq<T>, b: seq<T>, c: seq<T>, d: seq<T>)
    requires l == a + d && d == b + c && m == a + b
    ensures l == m + c
  {
  }

  /** The first cut of a split falls at the first separator of x also when
      more text follows x. */
  lemma SplitAtConcat(x: string, y: string, sep: char, i: nat)
    requires i < |x| && x[i] == sep && sep !in x[..i]
    ensures Split(x + [sep] + y, sep) == [x[..i]] + Split(x[i + 1..] + [sep] + y, sep)
  {
    var s := x + [sep] + y;
    assert s[..i] == x[..i] && s[i] == sep;
    assert s[i + 1..] == x[i + 1..] + [sep] + y;
    SplitAt(s, i, sep);
  }

  /** Splitting at a separator splits the two sides independently. */
  lemma {:induction false} SplitConcat(x: string, y: string, sep: char)
    ensures Split(x + [sep] + y, sep) == Split(x, sep) + Split(y, sep)
    decreases |x|
  {
    if sep in x {
      var i := IndexOf(x, sep);
      var x' := x[i + 1..];
      SplitAtConcat(x, y, sep, i);
      SplitAt(x, i, sep);
      SplitConcat(x', y, sep);
      Regroup(Split(x + [sep] + y, sep), Split(x, sep), [x[..i]], Split(x', sep), Split(y, sep), Split(x' + [sep] + y, sep));
    } else {
      var s := x + [sep] + y;
      assert s[..|x|] == x && s[|x|] == sep;
      assert s[|x| + 1..] == y;
      SplitAt(s, |x|, sep);
    }
  }

  /** Splitting a join of separator-free parts gives the parts back. */
  lemma {:induction false} SplitJoin(parts: seq<string>, sep: char)
    requires |parts| >= 1
    requires forall i :: 0 <= i < |parts| ==> sep !in parts[i]
    ensures Split(JoinWith(parts, sep), sep) == parts
  {
    SplitPlain(parts[0], sep);
    if |parts| > 1 {
      SplitJoin(parts[1..], sep);
      SplitConcat(parts[0], JoinWith(parts[1..], sep), sep);
      assert [parts[0]] + parts[1..] == parts;
    }
  }

  /** Separator-free text in front of a line only lengthens its first part. */
  lemma SplitPrefix(w: string, y: string, sep: char)
    requires sep !in w
    ensures Split(w + y, sep) == [w + Split(y, sep)[0]] + Split(y, sep)[1..]
  {
    if sep in y {
      var j := IndexOf(y, sep);
      SplitAtPrefix(w, y, sep, j);
      SplitAt(y, j, sep);
      HeadTail(Split(y, sep), y[..j], Split(y[j + 1..], sep));
    } else {
      assert sep !in w + y;
    }
  }

  lemma SplitAtPrefix(w: string, y: string, sep: char, j: nat)
    requires sep !in w && j < |y| && y[j] == sep && sep !in y[..j]
    ensures Split(w + y, sep) == [w + y[..j]] + Split(y[j + 1..], sep)
  {
    CutBehind(w, y, j);
    SplitAtParts(w + y, w + y[..j], y[j + 1..], sep);
  }

  /** Cutting w + y at position j of y: the two sides, around y[j]. */
  lemma CutBehind(w: string, y: string, j: nat)
    requires j < |y|
    ensures w + y == (w + y[..j]) + [y[j]] + y[j + 1..]
  {
    assert y == y[..j] + [y[j]] + y[j + 1..];
  }

  /** A split cuts at the first separator, with the two sides named. */
  lemma SplitAtParts(s: string, head: string, tail: string, sep: char)
    requires s == head + [sep] + tail && sep !in head
    ensures Split(s, sep) == [head] + Split(tail, sep)
  {
    assert s[..|head|] == head && s[|head| + 1..] == tail;
    SplitAt(s, |head|, sep);
  }

  lemma HeadTail<T>(l: seq<T>, h: T, r: seq<T>)
    requires l == [h] + r
    ensures l[0] == h && l[1..] == r
  {
  }

  /** Separator-free text after a line only lengthens its last part. */
  lemma {:induction false} SplitSuffix(y: string, w: string, sep: char)
    requires sep !in w
    ensures var p := Split(y, sep);
      Split(y + w, sep) == p[..|p| - 1] + [p[|p| - 1] + w]
    decreases |y|
  {
    if sep in y {
      var i := IndexOf(y, sep);
      var y' := y[i + 1..];
      SplitAtAppend(y, w, sep, i);
      SplitAt(y, i, sep);
      SplitSuffix(y', w, sep);
      ExtendLast(Split(y, sep), y[..i], Split(y', sep), w);
    } else {
      assert sep !in y + w;
    }
  }

  lemma SplitAtAppend(y: string, w: string, sep: char, i: nat)
    requires i < |y| && y[i] == sep && sep !in y[..i]
    ensures Split(y + w, sep) == [y[..i]] + Split(y[i + 1..] + w, sep)
  {
    var s := y + w;
    assert s[..i] == y[..i] && s[i] == sep;
    assert s[i + 1..] == y[i + 1..] + w;
    SplitAt(s, i, sep);
  }

  lemma ExtendLast(p: seq<string>, h: string, q: seq<string>, w: string)
    requires p == [h] + q && |q| >= 1
    ensures p[..|p| - 1] + [p[|p| - 1] + w] == [h] + (q[..|q| - 1] + [q[|q| - 1] + w])
  {
    assert p[..|p| - 1] == [h] + q[..|q| - 1];
  }

  /** Padding on the outside of a line only lengthens its first and last parts. */
  lemma SplitPadded(pre: string, t: string, post: string, sep: char)
    requires sep !in pre && sep !in post
    ensures var p := Split(t, sep); var q := Split(pre + t + post, sep);
      |q| == |p| &&
      forall i :: 0 <= i < |p| ==>
        q[i] == (if i == 0 then pre else "") + p[i] + (if i == |p| - 1 then post else "")
  {
    SplitSuffix(t, post, sep);
    assert pre + t + post == pre + (t + post);
    SplitPrefix(pre, t + post, sep);
    PadEnds(Split(t, sep), Split(t + post, sep), Split(pre + t + post, sep), pre, post);
  }

  /** Lengthening the last part, then the first, pads the ends. */
  lemma PadEnds(p: seq<string>, r: seq<string>, q: seq<string>, pre: string, post: string)
    requires |p| >= 1 && |r| >= 1
    requires r == p[..|p| - 1] + [p[|p| - 1] + post]
    requires q == [pre + r[0]] + r[1..]
    ensures |q| == |p| &&
      forall i :: 0 <= i < |p| ==> q[i] == (if i == 0 then pre else "") + p[i] + (if i == |p| - 1 then post else "")
  {
    forall i | 0 <= i < |p|
      ensures q[i] == (if i == 0 then pre else "") + p[i] + (if i == |p| - 1 then post else "")
    {
      if i == 0 {
        assert q[i] == pre + r[0];
      } else {
        assert q[i] == r[i];
      }
    }
  }

  /** Python's [p.strip() for p in line.split('|')]: the fields of a stored line. */
  function Fields(line: string): (fs: seq<string>)
    ensures |fs| >= 1
    ensures forall i :: 0 <= i < |fs| ==> Bare(fs[i])
  {
    var parts := Split(line, FieldSep);
    var fs := seq(|parts|, i requires 0 <= i < |parts| => Strip(parts[i]));
    assert forall i :: 0 <= i < |fs| ==> Bare(fs[i]) by {
      SplitPartsFree(line, FieldSep);
      forall i | 0 <= i < |fs| ensures Bare(fs[i]) {
        TrimTrims(parts[i], Whitespace);
        assert FieldSep !in parts[i];
      }
    }
    fs
  }

  lemma WhitespaceHasNoSeparator(s: string)
    requires AllIn(s, Whitespace)
    ensures FieldSep !in s
  {
    forall k | 0 <= k < |s|
      ensures s[k] != FieldSep
    {
      assert s[k] in Whitespace;
    }
  }

  /** Stripping a line first does not change its fields: the loaders strip
      every line before parsing it. */
  lemma FieldsOfStripped(line: string)
    ensures Fields(Strip(line)) == Fields(line)
  {
    var pre, post := TrimDecompose(line, Whitespace);
    var t := Strip(line);
    WhitespaceHasNoSeparator(pre);
    WhitespaceHasNoSeparator(post);
    SplitPadded(pre, t, post, FieldSep);
    var p := Split(t, FieldSep);
    var q := Split(line, FieldSep);
    forall i | 0 <= i < |p|
      ensures Strip(q[i]) == Strip(p[i])
    {
      var a := if i == 0 then pre else "";
      var b := if i == |p| - 1 then post else "";
      TrimAbsorbsPadding(a, p[i], b, Whitespace);
    }
  }

  /** A line of two fields or more is not blank: the loaders never skip it. */
  lemma SeparatedIsNotBlank(line: string)
    requires |Split(line, FieldSep)| >= 2
    ensures Strip(line) != ""
  {
    FieldsOfStripped(line);
    SplitPlain("", FieldSep);
    assert |Fields("")| == 1;
  }

  /** A field written with whitespace around it holds no separator and strips
      back to itself. */
  lemma PaddedField(pre: string, f: string, post: string)
    requires AllIn(pre, Whitespace) && AllIn(post, Whitespace) && Bare(f)
    ensures FieldSep !in pre + f + post
    ensures Strip(pre + f + post) == f
  {
    WhitespaceHasNoSeparator(pre);
    WhitespaceHasNoSeparator(post);
    TrimPadded(pre, f, post, Whitespace);
  }

  /** The fields of a joined line are its stripped parts. */
  lemma FieldsOfJoin(parts: seq<string>)
    requires |parts| >= 1
    requires forall i :: 0 <= i < |parts| ==> FieldSep !in parts[i]
    ensures |Fields(JoinWith(parts, FieldSep))| == |parts|
    ensures forall i :: 0 <= i < |parts| ==> Fields(JoinWith(parts, FieldSep))[i] == Strip(parts[i])
  {
    SplitJoin(parts, FieldSep);
  }

  /** The written form of each field of a stored line: a blank before every
      field but the first, a blank after every field but the last, and the
      newline after the last. */
  function Padded(fs: seq<string>): (ps: seq<string>)
    ensures |ps| == |fs|
  {
    seq(|fs|, i requires 0 <= i < |fs| =>
      (if i == 0 then "" else " ") + fs[i] + (if i == |fs| - 1 then "\n" else " "))
  }

  /** How every entity is written: its fields joined by " | ", ending in a
      newline (the f-strings of the serialize methods). */
  function StoredLine(fs: seq<string>): string
  {
    JoinWith(Padded(fs), FieldSep)
  }

  /** The stored line of two fields, written out. */
  lemma StoredLineOfTwo(a: string, b: string)
    ensures StoredLine([a, b]) == a + " | " + b + "\n"
  {
    var ps := Padded([a, b]);
    assert ps[0] == a + " ";
    assert ps[1] == " " + b + "\n";
    assert ps[1..] == [ps[1]];
    assert JoinWith(ps, FieldSep) == ps[0] + [FieldSep] + ps[1];
  }

  /** The stored line of four fields, written out. */
  lemma StoredLineOfFour(a: string, b: string, c: string, d: string)
    ensures StoredLine([a, b, c, d]) == a + " | " + b + " | " + c + " | " + d + "\n"
  {
    var ps := Padded([a, b, c, d]);
    assert ps[0] == a + " ";
    assert ps[1] == " " + b + " ";
    assert ps[2] == " " + c + " ";
    assert ps[3] == " " + d + "\n";
    assert ps[1..][1..][1..] == [ps[3]];
    assert JoinWith(ps[2..], FieldSep) == ps[2] + [FieldSep] + ps[3];
    assert JoinWith(ps[1..], FieldSep) == ps[1] + [FieldSep] + (ps[2] + [FieldSep] + ps[3]);
  }

  /** Reading the fields of a stored line gives back the fields written,
      whenever each one is bare. */
  lemma FieldsOfStoredLine(fs: seq<string>)
    requires |fs| >= 1
    requires forall i :: 0 <= i < |fs| ==> Bare(fs[i])
    ensures Fields(StoredLine(fs)) == fs
  {
    var ps := Padded(fs);
    forall i | 0 <= i < |fs|
      ensures FieldSep !in ps[i] && Strip(ps[i]) == fs[i]
    {
      var a: string := if i == 0 then "" else " ";
      var b: string := if i == |fs| - 1 then "\n" else " ";
      assert AllIn(a, Whitespace) && AllIn(b, Whitespace);
      PaddedField(a, fs[i], b);
    }
    FieldsOfJoin(ps);
  }

  /** Whatever follows a further separator never changes the fields before it. */
  lemma FieldsOfExtended(line: string, extra: string)
    ensures var a := Fields(line); var b := Fields(line + [FieldSep] + extra);
      |b| > |a| && forall i :: 0 <= i < |a| ==> b[i] == a[i]
  {
    SplitConcat(line, extra, FieldSep);
  }

  /** Python's s.startswith(prefix). */
  predicate StartsWith(s: string, prefix: string)
  {
    |prefix| <= |s| && s[..|prefix|] == prefix
  }

  /** Python's str.upper() on one character, for the ASCII letters. */
  function UpperChar(c: char): char
  {
    if 'a' <= c <= 'z' then (c as int - 32) as char else c
  }

  function Upper(s: string): string
  {
    seq(|s|, i requires 0 <= i < |s| => UpperChar(s[i]))
  }

  predicate NoLowercase(s: string)
  {
    forall i :: 0 <= i < |s| ==> !('a' <= s[i] <= 'z')
  }

  /** Upper leaves no lowercase letter, and upper-casing twice changes nothing
      more: a key that went through Upper is its own normal form. */
  lemma UpperNormalizes(s: string)
    ensures NoLowercase(Upper(s))
    ensures Upper(Upper(s)) == Upper(s)
    ensures |Upper(s)| == |s|
  {
  }

  /** The texts Upper leaves alone are exactly those without lowercase letters. */
  lemma UpperFixedPoints(s: string)
    ensures Upper(s) == s <==> NoLowercase(s)
  {
    if Upper(s) == s {
      forall i | 0 <= i < |s| ensures !('a' <= s[i] <= 'z') {
        assert Upper(s)[i] == UpperChar(s[i]);
      }
    }
  }
}
