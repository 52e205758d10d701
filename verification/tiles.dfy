/** Tile server URL templates and `format_string`, which fills the `{x}`,
    `{y}` and `{z}` placeholders of a template with decimal numbers. */
module Tiles {
  import opened Decimal

  /** The literal parts of the templates. */
  const ArcGisOnline := "https://services.arcgisonline.com"
  const ArcGisClarity := "https://clarity.maptiles.arcgis.com"
  const WorldImageryTiles := "/arcgis/rest/services" + "/World_Imagery/MapServer/tile/"
  const OpenStreetMapTiles := "https://tile.openstreetmap.org/"
  const MapTilerOsgb1888 := "https://api.maptiler.com" + "/tiles/uk-osgb10k1888/"
  const MapTilerKey := ".jpg?key=MXVhdLdJmHeZ0z5DwjBI"

  /** The template table, name to URL template. */
  const Apis: map<string, string> := map[
    "worldimagery" := ArcGisOnline + WorldImageryTiles + "{z}/{y}/{x}",
    "worldimagery-clarity" := ArcGisClarity + WorldImageryTiles + "{z}/{y}/{x}",
    "openstreetmap" := OpenStreetMapTiles + "{z}/{x}/{y}.png",
    "ukosgb1888" := MapTilerOsgb1888 + "{z}/{x}/{y}" + MapTilerKey
  ]

  /** `rep` inserted before every character of `s` and at its end: what
      Python's `replace` does with an empty pattern. */
  function InsertEverywhere(s: string, rep: string): (r: string)
    ensures |r| == |s| + (|s| + 1) * |rep|
  {
    if |s| == 0 then rep else rep + [s[0]] + InsertEverywhere(s[1..], rep)
  }

  /** Python's `s.replace(pat, rep)`: scanning left to right, every
      non-overlapping occurrence of `pat` is replaced by `rep`. */
  function ReplaceAll(s: string, pat: string, rep: string): string
    decreases |s|
  {
    if |pat| == 0 then InsertEverywhere(s, rep)
    else if |s| < |pat| then s
    else if s[..|pat|] == pat then rep + ReplaceAll(s[|pat|..], pat, rep)
    else [s[0]] + ReplaceAll(s[1..], pat, rep)
  }

  predicate OccursAt(s: string, pat: string, i: int)
  {
    0 <= i && i + |pat| <= |s| && s[i..i + |pat|] == pat
  }

  predicate Occurs(s: string, pat: string)
  {
    exists i :: 0 <= i <= |s| && OccursAt(s, pat, i)
  }

  /** A placeholder: a letter between braces. */
  function Placeholder(c: char): string
  {
    ['{', c, '}']
  }

  predicate IsPlaceholderLetter(c: char)
  {
    c == 'x' || c == 'y' || c == 'z'
  }

  /** Text a substitution inserts: non-empty, and made only of digits and
      minus signs, so it holds no brace and no placeholder letter. */
  predicate Inert(rep: string)
  {
    |rep| > 0 && forall i :: 0 <= i < |rep| ==> IsDigit(rep[i]) || rep[i] == '-'
  }

  predicate NoOpenBrace(s: string)
  {
    forall i :: 0 <= i < |s| ==> s[i] != '{'
  }

  lemma DecimalIsInert(n: int)
    ensures Inert(IntToString(n))
  {
    var s := IntToString(n);
    forall i | 0 <= i < |s|
      ensures IsDigit(s[i]) || s[i] == '-'
    {
      if i > 0 {
        assert s[i] == s[1..][i - 1];
      }
    }
  }

  /** `format_string(url, x, y, zoom)`: three successive replacements. */
  function FormatString(url: string, x: int, y: int, zoom: int): string
  {
    var withX := ReplaceAll(url, "{x}", IntToString(x));
    var withY := ReplaceAll(withX, "{y}", IntToString(y));
    ReplaceAll(withY, "{z}", IntToString(zoom))
  }

  /** One left-to-right pass that replaces every placeholder by its own
      value at once: the meaning of filling a template. */
  function Fill(s: string, xs: string, ys: string, zs: string): string
    decreases |s|
  {
    if |s| >= 3 && s[..3] == "{x}" then xs + Fill(s[3..], xs, ys, zs)
    else if |s| >= 3 && s[..3] == "{y}" then ys + Fill(s[3..], xs, ys, zs)
    else if |s| >= 3 && s[..3] == "{z}" then zs + Fill(s[3..], xs, ys, zs)
    else if |s| == 0 then []
    else [s[0]] + Fill(s[1..], xs, ys, zs)
  }

  // ---------------------------------------------------------------------
  // Replacement facts
  // ---------------------------------------------------------------------

  /** A suffix of a string without the pattern has no occurrence either. */
  lemma SuffixAbsent(s: string, pat: string, k: nat)
    requires k <= |s| && !Occurs(s, pat)
    ensures !Occurs(s[k..], pat)
  {
    forall i | 0 <= i <= |s[k..]|
      ensures !OccursAt(s[k..], pat, i)
    {
      assert !OccursAt(s, pat, i + k);
      if i + |pat| <= |s[k..]| {
        assert s[k..][i..i + |pat|] == s[i + k..i + k + |pat|];
      }
    }
  }

  /** A string without the pattern is returned unchanged. */
  lemma {:induction false} ReplaceAbsent(s: string, pat: string, rep: string)
    requires !Occurs(s, pat)
    ensures ReplaceAll(s, pat, rep) == s
    decreases |s|
  {
    assert !OccursAt(s, pat, 0);
    if |s| >= |pat| {
      SuffixAbsent(s, pat, 1);
      ReplaceAbsent(s[1..], pat, rep);
    }
  }

  /** If `r` is `a`'s head followed by `rt`, and `rt` is `a`'s tail
      followed by `rb`, then `r` is `a` followed by `rb`. */
  lemma ConsThenAppend(a: string, r: string, rt: string, rb: string)
    requires |a| > 0 && r == [a[0]] + rt && rt == a[1..] + rb
    ensures r == a + rb
  {
    assert a == [a[0]] + a[1..];
  }

  /** Text without an opening brace passes through a placeholder
      replacement untouched. */
  lemma {:induction false} ReplaceSkipsPrefix(a: string, b: string, c: char, rep: string)
    requires NoOpenBrace(a)
    ensures ReplaceAll(a + b, Placeholder(c), rep) == a + ReplaceAll(b, Placeholder(c), rep)
    decreases |a|
  {
    if |a| > 0 {
      var t := a[1..] + b;
      assert ReplaceAll(a + b, Placeholder(c), rep) == [a[0]] + ReplaceAll(t, Placeholder(c), rep) by {
        assert a + b == [a[0]] + t;
        assert !OccursAt([a[0]] + t, Placeholder(c), 0) by {
          assert a[0] != '{';
          if |[a[0]] + t| >= 3 {
            assert ([a[0]] + t)[..3][0] == a[0];
          }
        }
        ReplaceStep(a[0], t, c, rep);
      }
      assert ReplaceAll(t, Placeholder(c), rep) == a[1..] + ReplaceAll(b, Placeholder(c), rep) by {
        ReplaceSkipsPrefix(a[1..], b, c, rep);
      }
      ConsThenAppend(a, ReplaceAll(a + b, Placeholder(c), rep), ReplaceAll(t, Placeholder(c), rep),
                     ReplaceAll(b, Placeholder(c), rep));
    } else {
      assert a + b == b;
    }
  }


  lemma ReplaceHit(b: string, c: char, rep: string)
    ensures ReplaceAll(Placeholder(c) + b, Placeholder(c), rep) == rep + ReplaceAll(b, Placeholder(c), rep)
  {
    var s := Placeholder(c) + b;
    assert s[..3] == Placeholder(c);
    assert s[3..] == b;
  }

  /** A character that does not start an occurrence is copied. */
  lemma ReplaceStep(ch: char, t: string, c: char, rep: string)
    requires !OccursAt([ch] + t, Placeholder(c), 0)
    ensures ReplaceAll([ch] + t, Placeholder(c), rep) == [ch] + ReplaceAll(t, Placeholder(c), rep)
  {
    var s := [ch] + t;
    assert s[1..] == t;
    if |s| < 3 {
      assert ReplaceAll(t, Placeholder(c), rep) == t;
    }
  }

  /** Another placeholder passes through unchanged. */
  lemma ReplaceOther(b: string, c: char, d: char, rep: string)
    requires IsPlaceholderLetter(c) && IsPlaceholderLetter(d) && c != d
    ensures ReplaceAll(Placeholder(d) + b, Placeholder(c), rep) == Placeholder(d) + ReplaceAll(b, Placeholder(c), rep)
  {
    var tail := [d, '}'] + b;
    assert ReplaceAll(Placeholder(d) + b, Placeholder(c), rep) == ['{'] + ReplaceAll(tail, Placeholder(c), rep) by {
      assert Placeholder(d) + b == ['{'] + tail;
      assert !OccursAt(['{'] + tail, Placeholder(c), 0) by {
        assert (['{'] + tail)[..3][1] == d;
      }
      ReplaceStep('{', tail, c, rep);
    }
    assert ReplaceAll(tail, Placeholder(c), rep) == [d, '}'] + ReplaceAll(b, Placeholder(c), rep) by {
      ReplaceSkipsPrefix([d, '}'], b, c, rep);
    }
    assert Placeholder(d)[1..] == [d, '}'];
    ConsThenAppend(Placeholder(d), ReplaceAll(Placeholder(d) + b, Placeholder(c), rep),
                   ReplaceAll(tail, Placeholder(c), rep), ReplaceAll(b, Placeholder(c), rep));
  }

  /** A result that starts with a character inserted text never holds
      starts with that same character of the input. */
  lemma HeadPreserved(t: string, c: char, rep: string)
    requires Inert(rep)
    requires |ReplaceAll(t, Placeholder(c), rep)| > 0
    requires !IsDigit(ReplaceAll(t, Placeholder(c), rep)[0]) && ReplaceAll(t, Placeholder(c), rep)[0] != '-'
    ensures |t| > 0
    ensures ReplaceAll(t, Placeholder(c), rep) == [t[0]] + ReplaceAll(t[1..], Placeholder(c), rep)
  {
    var pat := Placeholder(c);
    if |t| < 3 {
      assert ReplaceAll(t[1..], pat, rep) == t[1..];
      assert t == [t[0]] + t[1..];
    }
  }

  /** If a replacement result starts with two characters that inserted
      text never holds, the input starts with the same two. */
  lemma StartsWithTwo(t: string, c: char, rep: string, c1: char, c2: char)
    requires Inert(rep)
    requires !IsDigit(c1) && c1 != '-' && !IsDigit(c2) && c2 != '-'
    requires |ReplaceAll(t, Placeholder(c), rep)| >= 2
    requires ReplaceAll(t, Placeholder(c), rep)[0] == c1 && ReplaceAll(t, Placeholder(c), rep)[1] == c2
    ensures |t| >= 2 && t[0] == c1 && t[1] == c2
  {
    var pat := Placeholder(c);
    HeadPreserved(t, c, rep);
    var r1 := ReplaceAll(t[1..], pat, rep);
    assert ReplaceAll(t, pat, rep) == [t[0]] + r1;
    assert |r1| > 0 && r1[0] == c2;
    HeadPreserved(t[1..], c, rep);
    assert t[1..][0] == c2;
  }

  /** Copying a character that does not start placeholder `d` cannot make
      one start there: the next two characters of the result would have to
      come from the input. */
  lemma FrontNotPlaceholder(s: string, c: char, d: char, rep: string)
    requires IsPlaceholderLetter(d)
    requires Inert(rep)
    requires |s| > 0 && !OccursAt(s, Placeholder(d), 0)
    ensures !OccursAt([s[0]] + ReplaceAll(s[1..], Placeholder(c), rep), Placeholder(d), 0)
  {
    var r' := ReplaceAll(s[1..], Placeholder(c), rep);
    if OccursAt([s[0]] + r', Placeholder(d), 0) {
      assert r'[0] == ([s[0]] + r')[1] && r'[1] == ([s[0]] + r')[2];
      StartsWithTwo(s[1..], c, rep, d, '}');
    }
  }

  /** Replacing placeholder `c` by inert text leaves no occurrence of
      placeholder `d` behind when `d` is `c` itself, and creates none when
      the input had none. */
  lemma {:induction false} NoPlaceholderAfter(s: string, c: char, d: char, rep: string)
    requires IsPlaceholderLetter(c) && IsPlaceholderLetter(d)
    requires Inert(rep)
    requires c == d || !Occurs(s, Placeholder(d))
    ensures !Occurs(ReplaceAll(s, Placeholder(c), rep), Placeholder(d))
    decreases |s|, 1
  {
    var r := ReplaceAll(s, Placeholder(c), rep);
    if |s| < 3 {
      assert r == s;
      assert forall i :: 0 <= i <= |r| ==> !OccursAt(r, Placeholder(d), i);
    } else if s[..3] == Placeholder(c) {
      NoPlaceholderAfterHit(s, c, d, rep);
    } else {
      NoPlaceholderAfterMiss(s, c, d, rep);
    }
  }

  /** The step of `NoPlaceholderAfter` where `s` starts with the pattern. */
  lemma {:induction false} NoPlaceholderAfterHit(s: string, c: char, d: char, rep: string)
    requires IsPlaceholderLetter(c) && IsPlaceholderLetter(d)
    requires Inert(rep)
    requires c == d || !Occurs(s, Placeholder(d))
    requires |s| >= 3 && s[..3] == Placeholder(c)
    ensures !Occurs(ReplaceAll(s, Placeholder(c), rep), Placeholder(d))
    decreases |s|, 0
  {
    var pat := Placeholder(c);
    var q := Placeholder(d);
    var r := ReplaceAll(s, pat, rep);
    var rest := s[3..];
    if c != d {
      SuffixAbsent(s, q, 3);
    }
    NoPlaceholderAfter(rest, c, d, rep);
    var r' := ReplaceAll(rest, pat, rep);
    assert r == rep + r';
    forall i | 0 <= i <= |r|
      ensures !OccursAt(r, q, i)
    {
      if i < |rep| {
        assert r[i] == rep[i];
      } else {
        assert !OccursAt(r', q, i - |rep|);
        if i + 3 <= |r| {
          assert r[i..i + 3] == r'[i - |rep|..i - |rep| + 3];
        }
      }
    }
  }

  /** The step of `NoPlaceholderAfter` where the first character is kept. */
  lemma {:induction false} NoPlaceholderAfterMiss(s: string, c: char, d: char, rep: string)
    requires IsPlaceholderLetter(c) && IsPlaceholderLetter(d)
    requires Inert(rep)
    requires c == d || !Occurs(s, Placeholder(d))
    requires |s| >= 3 && s[..3] != Placeholder(c)
    ensures !Occurs(ReplaceAll(s, Placeholder(c), rep), Placeholder(d))
    decreases |s|, 0
  {
    var pat := Placeholder(c);
    var q := Placeholder(d);
    var r := ReplaceAll(s, pat, rep);
    var rest := s[1..];
    if c != d {
      SuffixAbsent(s, q, 1);
    }
    NoPlaceholderAfter(rest, c, d, rep);
    var r' := ReplaceAll(rest, pat, rep);
    assert r == [s[0]] + r';
    forall i | 0 <= i <= |r|
      ensures !OccursAt(r, q, i)
    {
      if i == 0 {
        assert c == d ==> s[..3] != q;
        assert c != d ==> !OccursAt(s, q, 0);
        FrontNotPlaceholder(s, c, d, rep);
      } else {
        assert !OccursAt(r', q, i - 1);
        if i + 3 <= |r| {
          assert r[i..i + 3] == r'[i - 1..i + 2];
        }
      }
    }
  }


  // ---------------------------------------------------------------------
  // Properties of format_string
  // ---------------------------------------------------------------------

  /** A template without placeholders comes back unchanged. */
  lemma FormatStringNoPlaceholders(url: string, x: int, y: int, zoom: int)
    requires !Occurs(url, "{x}") && !Occurs(url, "{y}") && !Occurs(url, "{z}")
    ensures FormatString(url, x, y, zoom) == url
  {
    ReplaceAbsent(url, "{x}", IntToString(x));
    ReplaceAbsent(url, "{y}", IntToString(y));
    ReplaceAbsent(url, "{z}", IntToString(zoom));
  }

  /** No placeholder survives `format_string`. */
  lemma FormatStringFillsAll(url: string, x: int, y: int, zoom: int)
    ensures !Occurs(FormatString(url, x, y, zoom), "{x}")
    ensures !Occurs(FormatString(url, x, y, zoom), "{y}")
    ensures !Occurs(FormatString(url, x, y, zoom), "{z}")
  {
    DecimalIsInert(x);
    DecimalIsInert(y);
    DecimalIsInert(zoom);
    var withX := ReplaceAll(url, "{x}", IntToString(x));
    var withY := ReplaceAll(withX, "{y}", IntToString(y));
    assert Placeholder('x') == "{x}" && Placeholder('y') == "{y}" && Placeholder('z') == "{z}";
    NoPlaceholderAfter(url, 'x', 'x', IntToString(x));
    NoPlaceholderAfter(withX, 'y', 'x', IntToString(y));
    NoPlaceholderAfter(withY, 'z', 'x', IntToString(zoom));
    NoPlaceholderAfter(withX, 'y', 'y', IntToString(y));
    NoPlaceholderAfter(withY, 'z', 'y', IntToString(zoom));
    NoPlaceholderAfter(withY, 'z', 'z', IntToString(zoom));
  }

  lemma FormatAfterX(rest: string, x: int, y: int, zoom: int)
    ensures FormatString("{x}" + rest, x, y, zoom) == IntToString(x) + FormatString(rest, x, y, zoom)
  {
    var xs, ys, zs := IntToString(x), IntToString(y), IntToString(zoom);
    DecimalIsInert(x);
    var rx := ReplaceAll(rest, "{x}", xs);
    var ry := ReplaceAll(rx, "{y}", ys);
    assert Placeholder('x') == "{x}" && Placeholder('y') == "{y}" && Placeholder('z') == "{z}";
    ReplaceHit(rest, 'x', xs);
    ReplaceSkipsPrefix(xs, rx, 'y', ys);
    ReplaceSkipsPrefix(xs, ry, 'z', zs);
  }

  lemma FormatAfterY(rest: string, x: int, y: int, zoom: int)
    ensures FormatString("{y}" + rest, x, y, zoom) == IntToString(y) + FormatString(rest, x, y, zoom)
  {
    var xs, ys, zs := IntToString(x), IntToString(y), IntToString(zoom);
    DecimalIsInert(y);
    var rx := ReplaceAll(rest, "{x}", xs);
    var ry := ReplaceAll(rx, "{y}", ys);
    assert Placeholder('x') == "{x}" && Placeholder('y') == "{y}" && Placeholder('z') == "{z}";
    ReplaceOther(rest, 'x', 'y', xs);
    ReplaceHit(rx, 'y', ys);
    ReplaceSkipsPrefix(ys, ry, 'z', zs);
  }

  lemma FormatAfterZ(rest: string, x: int, y: int, zoom: int)
    ensures FormatString("{z}" + rest, x, y, zoom) == IntToString(zoom) + FormatString(rest, x, y, zoom)
  {
    var xs, ys, zs := IntToString(x), IntToString(y), IntToString(zoom);
    var rx := ReplaceAll(rest, "{x}", xs);
    var ry := ReplaceAll(rx, "{y}", ys);
    assert Placeholder('x') == "{x}" && Placeholder('y') == "{y}" && Placeholder('z') == "{z}";
    ReplaceOther(rest, 'x', 'z', xs);
    ReplaceOther(rx, 'y', 'z', ys);
    ReplaceHit(ry, 'z', zs);
  }

  /** A character that starts no placeholder is copied by all three
      replacements. */
  lemma FormatAfterChar(s: string, x: int, y: int, zoom: int)
    requires |s| > 0
    requires !OccursAt(s, "{x}", 0) && !OccursAt(s, "{y}", 0) && !OccursAt(s, "{z}", 0)
    ensures FormatString(s, x, y, zoom) == [s[0]] + FormatString(s[1..], x, y, zoom)
  {
    var xs, ys, zs := IntToString(x), IntToString(y), IntToString(zoom);
    DecimalIsInert(x);
    DecimalIsInert(y);
    var rest := s[1..];
    assert s == [s[0]] + rest;
    var rx := ReplaceAll(rest, "{x}", xs);
    var ry := ReplaceAll(rx, "{y}", ys);
    assert Placeholder('x') == "{x}" && Placeholder('y') == "{y}" && Placeholder('z') == "{z}";
    ReplaceStep(s[0], rest, 'x', xs);
    FrontNotPlaceholder(s, 'x', 'y', xs);
    ReplaceStep(s[0], rx, 'y', ys);
    FrontNotPlaceholder(s, 'x', 'z', xs);
    assert [s[0]] + rx == ReplaceAll(s, "{x}", xs);
    FrontNotPlaceholder([s[0]] + rx, 'y', 'z', ys);
    assert ([s[0]] + rx)[1..] == rx;
    ReplaceStep(s[0], ry, 'z', zs);
  }

  /** The three successive replacements agree with filling every
      placeholder in one pass: the digits one replacement inserts are never
      touched by a later one. */
  lemma {:induction false} FormatStringIsFill(url: string, x: int, y: int, zoom: int)
    ensures FormatString(url, x, y, zoom) == Fill(url, IntToString(x), IntToString(y), IntToString(zoom))
    decreases |url|
  {
    if |url| >= 3 && url[..3] == "{x}" {
      assert url == "{x}" + url[3..];
      FormatAfterX(url[3..], x, y, zoom);
      FormatStringIsFill(url[3..], x, y, zoom);
    } else if |url| >= 3 && url[..3] == "{y}" {
      assert url == "{y}" + url[3..];
      FormatAfterY(url[3..], x, y, zoom);
      FormatStringIsFill(url[3..], x, y, zoom);
    } else if |url| >= 3 && url[..3] == "{z}" {
      assert url == "{z}" + url[3..];
      FormatAfterZ(url[3..], x, y, zoom);
      FormatStringIsFill(url[3..], x, y, zoom);
    } else if |url| > 0 {
      FormatAfterChar(url, x, y, zoom);
      FormatStringIsFill(url[1..], x, y, zoom);
    }
  }

  // ---------------------------------------------------------------------
  // The URLs the table's templates produce
  // ---------------------------------------------------------------------

  /** The value a placeholder letter stands for. */
  function ValueOf(c: char, xs: string, ys: string, zs: string): string
  {
    if c == 'x' then xs else if c == 'y' then ys else zs
  }

  /** A leading character other than an opening brace is copied by `Fill`. */
  lemma FillPlain(s: string, xs: string, ys: string, zs: string)
    requires |s| > 0 && s[0] != '{'
    ensures Fill(s, xs, ys, zs) == [s[0]] + Fill(s[1..], xs, ys, zs)
  {
    if |s| >= 3 {
      assert s[..3][0] == s[0];
    }
  }

  /** Text without an opening brace is copied by `Fill`. */
  lemma {:induction false} FillPrefix(a: string, rest: string, xs: string, ys: string, zs: string)
    requires NoOpenBrace(a)
    ensures Fill(a + rest, xs, ys, zs) == a + Fill(rest, xs, ys, zs)
    decreases |a|
  {
    if |a| == 0 {
      assert a + rest == rest;
    } else {
      var s := a + rest;
      assert s[0] == a[0];
      assert s[1..] == a[1..] + rest;
      FillPlain(s, xs, ys, zs);
      FillPrefix(a[1..], rest, xs, ys, zs);
      assert a == [a[0]] + a[1..];
    }
  }

  /** A leading placeholder is replaced by its value. */
  lemma FillPlaceholder(c: char, rest: string, xs: string, ys: string, zs: string)
    requires IsPlaceholderLetter(c)
    ensures Fill(Placeholder(c) + rest, xs, ys, zs) == ValueOf(c, xs, ys, zs) + Fill(rest, xs, ys, zs)
  {
    var s := Placeholder(c) + rest;
    assert s[..3] == Placeholder(c);
    assert s[3..] == rest;
  }

  /** A template made of literal text around three placeholders. */
  function Template3(pre: string, a: char, m1: string, b: char, m2: string, c: char, post: string): string
  {
    pre + (Placeholder(a) + (m1 + (Placeholder(b) + (m2 + (Placeholder(c) + post)))))
  }

  lemma FillTemplate3(pre: string, a: char, m1: string, b: char, m2: string, c: char, post: string,
                      xs: string, ys: string, zs: string)
    requires NoOpenBrace(pre) && NoOpenBrace(m1) && NoOpenBrace(m2) && NoOpenBrace(post)
    requires IsPlaceholderLetter(a) && IsPlaceholderLetter(b) && IsPlaceholderLetter(c)
    ensures Fill(Template3(pre, a, m1, b, m2, c, post), xs, ys, zs)
         == pre + (ValueOf(a, xs, ys, zs) + (m1 + (ValueOf(b, xs, ys, zs) + (m2 + (ValueOf(c, xs, ys, zs) + post)))))
  {
    var t6 := Placeholder(c) + post;
    var t5 := m2 + t6;
    var t4 := Placeholder(b) + t5;
    var t3 := m1 + t4;
    var t2 := Placeholder(a) + t3;
    FillPrefix(pre, t2, xs, ys, zs);
    FillPlaceholder(a, t3, xs, ys, zs);
    FillPrefix(m1, t4, xs, ys, zs);
    FillPlaceholder(b, t5, xs, ys, zs);
    FillPrefix(m2, t6, xs, ys, zs);
    FillPlaceholder(c, post, xs, ys, zs);
    assert post + [] == post;
    FillPrefix(post, [], xs, ys, zs);
  }

  lemma NoOpenBraceConcat(a: string, b: string)
    requires NoOpenBrace(a) && NoOpenBrace(b)
    ensures NoOpenBrace(a + b)
  {
    assert forall i :: 0 <= i < |a + b| ==> (a + b)[i] == if i < |a| then a[i] else b[i - |a|];
  }

  lemma WorldImageryTilesHasNoBrace()
    ensures NoOpenBrace(WorldImageryTiles)
  {
    NoOpenBraceConcat("/arcgis/rest/services", "/World_Imagery/MapServer/tile/");
  }

  lemma ArcGisHostsHaveNoBrace()
    ensures NoOpenBrace(ArcGisOnline + WorldImageryTiles) && NoOpenBrace(ArcGisClarity + WorldImageryTiles)
  {
    WorldImageryTilesHasNoBrace();
    assert NoOpenBrace(ArcGisOnline + WorldImageryTiles) by {
      NoOpenBraceConcat(ArcGisOnline, WorldImageryTiles);
    }
    NoOpenBraceConcat(ArcGisClarity, WorldImageryTiles);
  }

  lemma MapTilerPartsHaveNoBrace()
    ensures NoOpenBrace(MapTilerOsgb1888) && NoOpenBrace(MapTilerKey)
  {
    assert NoOpenBrace(MapTilerOsgb1888) by {
      NoOpenBraceConcat("https://api.maptiler.com", "/tiles/uk-osgb10k1888/");
    }
  }

  lemma LiteralPartsHaveNoBrace()
    ensures NoOpenBrace(ArcGisOnline + WorldImageryTiles) && NoOpenBrace(ArcGisClarity + WorldImageryTiles)
    ensures NoOpenBrace(OpenStreetMapTiles) && NoOpenBrace(MapTilerOsgb1888) && NoOpenBrace(MapTilerKey)
  {
    ArcGisHostsHaveNoBrace();
    MapTilerPartsHaveNoBrace();
  }


  /** The ArcGIS template puts the zoom first and the row `y` before the
      column `x`. */
  lemma WorldImageryUrl(key: string, x: int, y: int, zoom: int)
    requires key == "worldimagery" || key == "worldimagery-clarity"
    ensures var host := if key == "worldimagery" then ArcGisOnline else ArcGisClarity;
            FormatString(Apis[key], x, y, zoom)
            == host + WorldImageryTiles + (IntToString(zoom) + ("/" + (IntToString(y) + ("/" + IntToString(x)))))
  {
    var xs, ys, zs := IntToString(x), IntToString(y), IntToString(zoom);
    var host := if key == "worldimagery" then ArcGisOnline else ArcGisClarity;
    var pre := host + WorldImageryTiles;
    assert Apis[key] == Template3(pre, 'z', "/", 'y', "/", 'x', "") by {
      assert "{z}/{y}/{x}" == Placeholder('z') + ("/" + (Placeholder('y') + ("/" + (Placeholder('x') + ""))));
    }
    assert FormatString(Apis[key], x, y, zoom) == Fill(Apis[key], xs, ys, zs) by {
      FormatStringIsFill(Apis[key], x, y, zoom);
    }
    assert Fill(Template3(pre, 'z', "/", 'y', "/", 'x', ""), xs, ys, zs)
        == pre + (zs + ("/" + (ys + ("/" + (xs + ""))))) by {
      LiteralPartsHaveNoBrace();
      FillTemplate3(pre, 'z', "/", 'y', "/", 'x', "", xs, ys, zs);
    }
    assert xs + "" == xs;
  }

  /** The OpenStreetMap template puts the zoom first and the column `x`
      before the row `y`. */
  lemma OpenStreetMapUrl(x: int, y: int, zoom: int)
    ensures FormatString(Apis["openstreetmap"], x, y, zoom)
         == OpenStreetMapTiles + (IntToString(zoom) + ("/" + (IntToString(x) + ("/" + (IntToString(y) + ".png")))))
  {
    var xs, ys, zs := IntToString(x), IntToString(y), IntToString(zoom);
    var t := Template3(OpenStreetMapTiles, 'z', "/", 'x', "/", 'y', ".png");
    assert Apis["openstreetmap"] == t by {
      assert "{z}/{x}/{y}.png" == Placeholder('z') + ("/" + (Placeholder('x') + ("/" + (Placeholder('y') + ".png"))));
    }
    assert FormatString(t, x, y, zoom) == Fill(t, xs, ys, zs) by {
      FormatStringIsFill(t, x, y, zoom);
    }
    assert Fill(t, xs, ys, zs) == OpenStreetMapTiles + (zs + ("/" + (xs + ("/" + (ys + ".png"))))) by {
      LiteralPartsHaveNoBrace();
      FillTemplate3(OpenStreetMapTiles, 'z', "/", 'x', "/", 'y', ".png", xs, ys, zs);
    }
  }

  /** The 1888 Ordnance Survey template has the OpenStreetMap order and
      keeps its access key after the placeholders. */
  lemma Osgb1888Url(x: int, y: int, zoom: int)
    ensures FormatString(Apis["ukosgb1888"], x, y, zoom)
         == MapTilerOsgb1888 + (IntToString(zoom) + ("/" + (IntToString(x) + ("/" + (IntToString(y) + MapTilerKey)))))
  {
    var xs, ys, zs := IntToString(x), IntToString(y), IntToString(zoom);
    var t := Template3(MapTilerOsgb1888, 'z', "/", 'x', "/", 'y', MapTilerKey);
    assert Apis["ukosgb1888"] == t by {
      assert "{z}/{x}/{y}" == Placeholder('z') + ("/" + (Placeholder('x') + ("/" + Placeholder('y'))));
    }
    assert FormatString(t, x, y, zoom) == Fill(t, xs, ys, zs) by {
      FormatStringIsFill(t, x, y, zoom);
    }
    assert Fill(t, xs, ys, zs) == MapTilerOsgb1888 + (zs + ("/" + (xs + ("/" + (ys + MapTilerKey))))) by {
      LiteralPartsHaveNoBrace();
      FillTemplate3(MapTilerOsgb1888, 'z', "/", 'x', "/", 'y', MapTilerKey, xs, ys, zs);
    }
  }
}
