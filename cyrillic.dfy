/** The text transforms of latin_to_cyrillic.js: the Latin-to-Cyrillic
    character table, the string transform built on it, and the denylist
    test that keeps an element from being transformed. */
module Cyrillic {

  datatype Option<+T> = None | Some(value: T)

  predicate IsAsciiLetter(c: char) {
    'a' <= c <= 'z' || 'A' <= c <= 'Z'
  }

  /** The letters the table writes: U+0410 to U+044F. */
  predicate IsCyrillic(c: char) {
    '\U{0410}' <= c <= '\U{044F}'
  }

  predicate NoAsciiLetter(s: string) {
    forall i :: 0 <= i < |s| ==> !IsAsciiLetter(s[i])
  }

  /** The `map` object of `latinToCyrillic`: one entry per ASCII letter.
      `q`/`k`, `w`/`v` and `y`/`j` share their targets, `x` expands to two
      letters. */
  function Table(c: char): (r: Option<string>)
    ensures r.Some? <==> IsAsciiLetter(c)
    ensures r.Some? ==> r.value != [] && NoAsciiLetter(r.value)
  {
    match c
    case 'a' => Some("а") case 'b' => Some("б") case 'c' => Some("ц")
    case 'd' => Some("д") case 'e' => Some("е") case 'f' => Some("ф")
    case 'g' => Some("г") case 'h' => Some("х") case 'i' => Some("и")
    case 'j' => Some("й") case 'k' => Some("к") case 'l' => Some("л")
    case 'm' => Some("м") case 'n' => Some("н") case 'o' => Some("о")
    case 'p' => Some("п") case 'q' => Some("к") case 'r' => Some("р")
    case 's' => Some("с") case 't' => Some("т") case 'u' => Some("у")
    case 'v' => Some("в") case 'w' => Some("в") case 'x' => Some("кс")
    case 'y' => Some("й") case 'z' => Some("з")
    case 'A' => Some("А") case 'B' => Some("Б") case 'C' => Some("Ц")
    case 'D' => Some("Д") case 'E' => Some("Е") case 'F' => Some("Ф")
    case 'G' => Some("Г") case 'H' => Some("Х") case 'I' => Some("И")
    case 'J' => Some("Й") case 'K' => Some("К") case 'L' => Some("Л")
    case 'M' => Some("М") case 'N' => Some("Н") case 'O' => Some("О")
    case 'P' => Some("П") case 'Q' => Some("К") case 'R' => Some("Р")
    case 'S' => Some("С") case 'T' => Some("Т") case 'U' => Some("У")
    case 'V' => Some("В") case 'W' => Some("В") case 'X' => Some("КС")
    case 'Y' => Some("Й") case 'Z' => Some("З")
    case _ => None
  }

  /** `map[c] || c`: the table entry when there is a non-empty one, the
      character itself otherwise. */
  function TranslitChar(c: char): (r: string)
    ensures IsAsciiLetter(c) ==> Table(c) == Some(r)
    ensures !IsAsciiLetter(c) ==> r == [c]
    ensures NoAsciiLetter(r)
  {
    match Table(c)
    case Some(s) => if s != [] then s else [c]
    case None => [c]
  }

  /** A letter becomes a non-empty run of Cyrillic letters. */
  lemma TranslitLetter(c: char)
    requires IsAsciiLetter(c)
    ensures TranslitChar(c) != [] && forall k :: 0 <= k < |TranslitChar(c)| ==> IsCyrillic(TranslitChar(c)[k])
  {
    assert Table(c).Some?;
  }

  /** `latinToCyrillic`: split into characters, map each, join. */
  function ToCyrillic(s: string): (r: string)
    ensures NoAsciiLetter(r)
    ensures |r| >= |s|
  {
    if s == [] then [] else TranslitChar(s[0]) + ToCyrillic(s[1..])
  }

  lemma {:induction false} ToCyrillicAppend(a: string, b: string)
    ensures ToCyrillic(a + b) == ToCyrillic(a) + ToCyrillic(b)
  {
    if a == [] {
      assert a + b == b;
    } else {
      assert (a + b)[1..] == a[1..] + b;
      ToCyrillicAppend(a[1..], b);
    }
  }

  /** Text with no ASCII letter passes through unchanged. */
  lemma {:induction false} ToCyrillicFixesLetterFree(s: string)
    requires NoAsciiLetter(s)
    ensures ToCyrillic(s) == s
  {
    if s != [] {
      assert !IsAsciiLetter(s[0]);
      ToCyrillicFixesLetterFree(s[1..]);
    }
  }

  /** Transforming already transformed text changes nothing. */
  lemma ToCyrillicIdempotent(s: string)
    ensures ToCyrillic(ToCyrillic(s)) == ToCyrillic(s)
  {
    ToCyrillicFixesLetterFree(ToCyrillic(s));
  }

  lemma ToCyrillicCons(c: char, s: string)
    ensures ToCyrillic([c] + s) == TranslitChar(c) + ToCyrillic(s)
  {
    assert ([c] + s)[1..] == s;
  }

  /** The table is not injective: `q`, `w` and `y`, and their capitals,
      reuse the targets of `k`, `v` and `j`. */
  lemma SharedTargets(a: char, b: char)
    requires (a, b) in {('k', 'q'), ('v', 'w'), ('j', 'y'), ('K', 'Q'), ('V', 'W'), ('J', 'Y')}
    ensures a != b && TranslitChar(a) == TranslitChar(b)
  {
  }

  /** Hence the transform has no inverse: whatever function is offered as
      one fails on some input, and restoring has to use a cached copy. */
  lemma ToCyrillicNotInvertible(inverse: string -> string)
    ensures exists s :: inverse(ToCyrillic(s)) != s
  {
    ToCyrillicCons('k', "");
    ToCyrillicCons('q', "");
    assert ToCyrillic("k") == ToCyrillic("q");
    if inverse(ToCyrillic("k")) == "k" {
      assert inverse(ToCyrillic("q")) != "q";
    }
  }

  // ---------------------------------------------------------------------
  // The denylist

  /** `forbiddenStrings`: the password word 密码, `@`, `#` and `/`. */
  const Forbidden: seq<string> := ["密码", "@", "#", "/"]

  predicate OccursAt(text: string, pat: string, i: int) {
    0 <= i <= |text| - |pat| && text[i..i + |pat|] == pat
  }

  /** `text.includes(pat)`. */
  function Includes(text: string, pat: string): (r: bool)
    ensures r <==> exists i :: OccursAt(text, pat, i)
    decreases |text|
  {
    if pat <= text then
      assert OccursAt(text, pat, 0);
      true
    else if text == [] then
      false
    else
      var r := Includes(text[1..], pat);
      assert forall i :: OccursAt(text[1..], pat, i) ==> OccursAt(text, pat, i + 1);
      assert forall i :: OccursAt(text, pat, i) && i > 0 ==> OccursAt(text[1..], pat, i - 1);
      r
  }

  /** `pats.some(s => text.includes(s))`. */
  function AnyIncluded(pats: seq<string>, text: string): (r: bool)
    ensures r <==> exists k :: 0 <= k < |pats| && Includes(text, pats[k])
  {
    if pats == [] then false
    else
      var r := Includes(text, pats[0]) || AnyIncluded(pats[1..], text);
      assert forall k :: 1 <= k < |pats| ==> pats[k] == pats[1..][k - 1];
      r
  }

  /** For a one-character pattern `includes` is plain membership. */
  lemma IncludesChar(text: string, c: char)
    ensures Includes(text, [c]) <==> c in text
  {
    if c in text {
      var i :| 0 <= i < |text| && text[i] == c;
      assert OccursAt(text, [c], i);
    }
    if Includes(text, [c]) {
      var i :| OccursAt(text, [c], i);
      assert text[i] == text[i..i + 1][0];
    }
  }

  /** `shouldSkip` applied to an element's `textContent`. */
  function ShouldSkip(text: string): (r: bool)
    ensures r <==> '@' in text || '#' in text || '/' in text || Includes(text, "密码")
  {
    IncludesChar(text, '@');
    IncludesChar(text, '#');
    IncludesChar(text, '/');
    assert Forbidden[1] == ['@'] && Forbidden[2] == ['#'] && Forbidden[3] == ['/'];
    AnyIncluded(Forbidden, text)
  }

  /** A forbidden string anywhere inside a longer text still causes a skip. */
  lemma {:induction false} IncludesInfix(a: string, b: string, c: string, pat: string)
    requires Includes(b, pat)
    ensures Includes(a + b + c, pat)
  {
    var i :| OccursAt(b, pat, i);
    assert (a + b + c)[|a| + i..|a| + i + |pat|] == b[i..i + |pat|];
    assert OccursAt(a + b + c, pat, |a| + i);
  }

  lemma ShouldSkipInfix(a: string, b: string, c: string)
    requires ShouldSkip(b)
    ensures ShouldSkip(a + b + c)
  {
    if Includes(b, "密码") {
      IncludesInfix(a, b, c, "密码");
    }
  }

  // ---------------------------------------------------------------------
  // What the denylist sees of a text

  /** A letter of either alphabet. No forbidden string contains one. */
  predicate IsLetter(c: char) {
    IsAsciiLetter(c) || IsCyrillic(c)
  }

  predicate NoLetter(s: string) {
    forall i :: 0 <= i < |s| ==> !IsLetter(s[i])
  }

  /** Marks the start of a run of letters, once. */
  function Run(t: string): (r: string)
    ensures r != [] && r[0] == 'a'
  {
    if t != [] && t[0] == 'a' then t else ['a'] + t
  }

  /** The text with every maximal run of letters collapsed to one `a`. */
  function Shape(s: string): string
    decreases |s|
  {
    if s == [] then []
    else if IsLetter(s[0]) then Run(Shape(s[1..]))
    else [s[0]] + Shape(s[1..])
  }

  lemma ShapeCons(c: char, s: string)
    ensures Shape([c] + s) == if IsLetter(c) then Run(Shape(s)) else [c] + Shape(s)
  {
    assert ([c] + s)[1..] == s;
  }

  /** A non-empty run of letters in front counts once. */
  lemma {:induction false} ShapeLetters(t: string, s: string)
    requires t != [] && forall k :: 0 <= k < |t| ==> IsLetter(t[k])
    ensures Shape(t + s) == Run(Shape(s))
    decreases |t|
  {
    ShapeCons(t[0], t[1..] + s);
    assert t + s == [t[0]] + (t[1..] + s);
    if |t| > 1 {
      ShapeLetters(t[1..], s);
    }
  }

  /** Transliteration turns runs of letters into runs of letters and copies
      everything else, so the shape stays the same. */
  lemma {:induction false} ShapeToCyrillic(s: string)
    ensures Shape(ToCyrillic(s)) == Shape(s)
    decreases |s|
  {
    if s != [] {
      var c := s[0];
      assert s == [c] + s[1..];
      ToCyrillicCons(c, s[1..]);
      ShapeToCyrillic(s[1..]);
      ShapeCons(c, s[1..]);
      if IsAsciiLetter(c) {
        TranslitLetter(c);
        ShapeLetters(TranslitChar(c), ToCyrillic(s[1..]));
      } else {
        ShapeCons(c, ToCyrillic(s[1..]));
      }
    }
  }

  lemma ShapeRun(t: string, b: string)
    ensures Shape(Run(t) + b) == Run(Shape(t + b))
  {
    if t != [] && t[0] == 'a' {
      ShapeCons('a', t[1..] + b);
      assert t + b == ['a'] + (t[1..] + b);
    } else {
      ShapeCons('a', t + b);
      assert Run(t) + b == ['a'] + (t + b);
    }
  }

  lemma {:induction false} ShapeLeft(a: string, b: string)
    ensures Shape(a + b) == Shape(Shape(a) + b)
    decreases |a|
  {
    if a == [] {
      assert a + b == b;
    } else {
      var c := a[0];
      assert a + b == [c] + (a[1..] + b);
      assert a == [c] + a[1..];
      ShapeCons(c, a[1..] + b);
      ShapeCons(c, a[1..]);
      ShapeLeft(a[1..], b);
      if IsLetter(c) {
        ShapeRun(Shape(a[1..]), b);
      } else {
        assert [c] + Shape(a[1..]) + b == [c] + (Shape(a[1..]) + b);
        ShapeCons(c, Shape(a[1..]) + b);
      }
    }
  }

  lemma {:induction false} ShapeIdempotent(s: string)
    ensures Shape(Shape(s)) == Shape(s)
    decreases |s|
  {
    if s != [] {
      var c := s[0];
      assert s == [c] + s[1..];
      ShapeCons(c, s[1..]);
      ShapeIdempotent(s[1..]);
      if IsLetter(c) {
        ShapeRun(Shape(s[1..]), []);
        assert Run(Shape(s[1..])) + [] == Run(Shape(s[1..]));
        assert Shape(s[1..]) + [] == Shape(s[1..]);
      } else {
        ShapeCons(c, Shape(s[1..]));
      }
    }
  }

  lemma {:induction false} ShapeRight(a: string, b: string)
    ensures Shape(a + b) == Shape(a + Shape(b))
    decreases |a|
  {
    if a == [] {
      assert a + b == b && a + Shape(b) == Shape(b);
      ShapeIdempotent(b);
    } else {
      var c := a[0];
      assert a + b == [c] + (a[1..] + b);
      assert a + Shape(b) == [c] + (a[1..] + Shape(b));
      ShapeCons(c, a[1..] + b);
      ShapeCons(c, a[1..] + Shape(b));
      ShapeRight(a[1..], b);
    }
  }

  /** Texts of equal shape stay of equal shape when joined. */
  lemma ShapeConcat(a: string, a': string, b: string, b': string)
    requires Shape(a) == Shape(a') && Shape(b) == Shape(b')
    ensures Shape(a + b) == Shape(a' + b')
  {
    ShapeLeft(a, b);
    ShapeLeft(a', b);
    ShapeRight(a', b);
    ShapeRight(a', b');
  }

  lemma {:induction false} PrefixShape(s: string, p: string)
    requires NoLetter(p)
    ensures p <= s <==> p <= Shape(s)
    decreases |s|
  {
    if s != [] && p != [] {
      var c := s[0];
      assert s == [c] + s[1..];
      ShapeCons(c, s[1..]);
      if !IsLetter(c) {
        PrefixShape(s[1..], p[1..]);
        assert p <= s <==> p[0] == c && p[1..] <= s[1..];
        assert p <= Shape(s) <==> p[0] == c && p[1..] <= Shape(s[1..]);
      } else {
        assert !IsLetter(p[0]);
      }
    }
  }

  /** A pattern without letters occurs in a text iff it occurs in its shape. */
  lemma {:induction false} IncludesShape(s: string, p: string)
    requires p != [] && NoLetter(p)
    ensures Includes(s, p) == Includes(Shape(s), p)
    decreases |s|
  {
    if s != [] {
      var c := s[0];
      assert s == [c] + s[1..];
      assert s[1..] == ([c] + s[1..])[1..];
      ShapeCons(c, s[1..]);
      PrefixShape(s, p);
      IncludesShape(s[1..], p);
      var t := Shape(s[1..]);
      if IsLetter(c) {
        assert !IsLetter(p[0]);
        if !(t != [] && t[0] == 'a') {
          assert (['a'] + t)[1..] == t;
        }
      } else {
        assert ([c] + t)[1..] == t;
      }
    }
  }

  /** Texts of equal shape get the same skip verdict. */
  lemma SkipShape(s: string, s': string)
    requires Shape(s) == Shape(s')
    ensures ShouldSkip(s) == ShouldSkip(s')
  {
    var pw := "密码";
    assert pw[0] == '密' && pw[1] == '码';
    assert NoLetter(pw);
    assert NoLetter("@") && NoLetter("#") && NoLetter("/");
    IncludesShape(s, pw); IncludesShape(s', pw);
    IncludesShape(s, "@"); IncludesShape(s', "@");
    IncludesShape(s, "#"); IncludesShape(s', "#");
    IncludesShape(s, "/"); IncludesShape(s', "/");
    IncludesChar(s, '@'); IncludesChar(s', '@');
    IncludesChar(s, '#'); IncludesChar(s', '#');
    IncludesChar(s, '/'); IncludesChar(s', '/');
  }

  /** Transliterating never changes the skip verdict: no forbidden string
      holds a letter, and letters only ever become letters. */
  lemma SkipToCyrillic(s: string)
    ensures ShouldSkip(ToCyrillic(s)) == ShouldSkip(s)
  {
    ShapeToCyrillic(s);
    SkipShape(ToCyrillic(s), s);
  }
}
