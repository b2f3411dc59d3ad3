/** File-name derivation: the accent-stripping, hyphenating slug applied to Artist and Title,
    the `Artist_Title.jpg` file name and the `<base>/thumbs/<file>` path. */
module Slug {
  import opened Values
  import opened Seqs

  /** Unicode normalisation forms, which the model does not compute: `nfd` stands for
      `String.prototype.normalize('NFD')`, `nfc` for `normalize('NFC')`. */
  datatype Unicode = Unicode(nfd: string -> string, nfc: string -> string)

  /** U+0300 to U+036F, the Combining Diacritical Marks block. */
  predicate IsCombiningMark(c: char) {
    0x300 <= c as int <= 0x36F
  }

  /** The class `[a-zA-Z0-9]`. */
  predicate IsAsciiAlnum(c: char) {
    ('a' <= c <= 'z') || ('A' <= c <= 'Z') || ('0' <= c <= '9')
  }

  predicate IsSlugChar(c: char) {
    IsAsciiAlnum(c) || c == '-'
  }

  predicate IsSlug(s: string) {
    forall i :: 0 <= i < |s| ==> IsSlugChar(s[i])
  }

  /** The characters `.replace(/[\u0300-\u036f]/g, '')` keeps. */
  predicate IsBaseChar(c: char) {
    !IsCombiningMark(c)
  }

  /** `.replace(/[\u0300-\u036f]/g, '')`: every combining mark dropped, every other character
      kept in order. */
  function StripMarks(s: string): (r: string)
    ensures r == Filter(s, IsBaseChar)
    ensures |r| <= |s|
    ensures forall i :: 0 <= i < |r| ==> !IsCombiningMark(r[i])
    ensures forall c :: c in r ==> c in s
  {
    if s == [] then []
    else (if IsCombiningMark(s[0]) then [] else [s[0]]) + StripMarks(s[1..])
  }

  /** How many UTF-16 code units a character takes: two (a surrogate pair) above U+FFFF. */
  function Utf16Units(c: char): nat {
    if c as int > 0xFFFF then 2 else 1
  }

  /** The length of a string in UTF-16 code units, which is what a regular expression without
      the `u` flag walks over. */
  function Utf16Length(s: string): (n: nat)
    ensures n >= |s|
  {
    if s == [] then 0 else Utf16Units(s[0]) + Utf16Length(s[1..])
  }

  /** No character outside the Basic Multilingual Plane. */
  predicate InBmp(s: string) {
    forall i :: 0 <= i < |s| ==> s[i] as int <= 0xFFFF
  }

  /** What `/[^a-zA-Z0-9]/g -> '-'` makes of one character: an ASCII letter or digit stays, any
      other character becomes one hyphen per UTF-16 code unit. */
  function HyphenUnits(c: char): (r: string)
    ensures |r| == Utf16Units(c)
    ensures IsAsciiAlnum(c) ==> r == [c]
    ensures !IsAsciiAlnum(c) ==> forall i :: 0 <= i < |r| ==> r[i] == '-'
  {
    if IsAsciiAlnum(c) then [c] else if c as int > 0xFFFF then "--" else "-"
  }

  /** `.replace(/[^a-zA-Z0-9]/g, '-')`: one hyphen for each UTF-16 code unit that is not an
      ASCII letter or digit, nothing collapsed. */
  function Hyphenate(s: string): (r: string)
    ensures |r| == Utf16Length(s)
    ensures IsSlug(r)
  {
    if s == [] then []
    else
      var h, rest := HyphenUnits(s[0]), Hyphenate(s[1..]);
      assert forall i :: |h| <= i < |h| + |rest| ==> (h + rest)[i] == rest[i - |h|];
      h + rest
  }

  /** `cleanArtist` / `cleanTitle`: decompose, drop combining marks, hyphenate. The slug holds
      only `[A-Za-z0-9-]` and has one character per UTF-16 code unit of the mark-stripped text. */
  function MakeSlug(u: Unicode, s: string): (r: string)
    ensures IsSlug(r)
    ensures |r| == Utf16Length(StripMarks(u.nfd(s)))
  {
    Hyphenate(StripMarks(u.nfd(s)))
  }

  /** `${cleanArtist}_${cleanTitle}.jpg` */
  function FileName(cleanArtist: string, cleanTitle: string): (f: string)
    ensures |f| == |cleanArtist| + |cleanTitle| + 5
    ensures f[..|cleanArtist|] == cleanArtist && f[|cleanArtist|] == '_'
    ensures f[|cleanArtist| + 1..|f| - 4] == cleanTitle && f[|f| - 4..] == ".jpg"
  {
    cleanArtist + "_" + cleanTitle + ".jpg"
  }

  /** `${basePath}/thumbs/${filename}` */
  function FullPath(basePath: string, fileName: string): (p: string)
    ensures |p| == |basePath| + 8 + |fileName|
    ensures p[..|basePath|] == basePath && p[|basePath|..|basePath| + 8] == "/thumbs/"
    ensures p[|basePath| + 8..] == fileName
  {
    basePath + "/thumbs/" + fileName
  }

  /** Index of the first `_` in `s`, if any. */
  function FirstUnderscore(s: string): (r: Option<nat>)
    ensures r.Some? ==> r.value < |s| && s[r.value] == '_' && forall i :: 0 <= i < r.value ==> s[i] != '_'
    ensures r.None? ==> forall i :: 0 <= i < |s| ==> s[i] != '_'
  {
    if s == [] then None
    else if s[0] == '_' then Some(0)
    else match FirstUnderscore(s[1..])
      case None => None
      case Some(k) => Some(k + 1)
  }

  /** Reads a file name back into its artist and title slugs: the text before the first `_`
      and the text between it and a final `.jpg`. */
  function SplitFileName(f: string): (r: Option<(string, string)>)
    ensures r.Some? ==> FileName(r.value.0, r.value.1) == f
  {
    if |f| < 4 || f[|f| - 4..] != ".jpg" then None
    else
      var stem := f[..|f| - 4];
      match FirstUnderscore(stem)
      case None => None
      case Some(k) =>
        assert stem[..k] + "_" + stem[k + 1..] == stem;
        assert f == stem + ".jpg";
        Some((stem[..k], stem[k + 1..]))
  }

  // ---------------------------------------------------------------- lemmas

  /** Mark removal keeps exactly the characters outside U+0300–U+036F, in their order. */
  lemma StripMarksKeepsBase(s: string)
    ensures forall c :: c in StripMarks(s) <==> c in s && !IsCombiningMark(c)
    ensures IsSubsequence(StripMarks(s), s)
  {
    FilterMembers(s, IsBaseChar);
    FilterIsSubsequence(s, IsBaseChar);
  }

  /** For text inside the Basic Multilingual Plane the slug is exactly as long as the
      mark-stripped decomposed input, keeps each ASCII letter and digit in place and has a
      hyphen at every other position. */
  lemma SlugShape(u: Unicode, s: string)
    requires InBmp(StripMarks(u.nfd(s)))
    ensures var t := StripMarks(u.nfd(s));
      && |MakeSlug(u, s)| == |t|
      && forall i :: 0 <= i < |t| ==> MakeSlug(u, s)[i] == (if IsAsciiAlnum(t[i]) then t[i] else '-')
  {
    HyphenateBmp(StripMarks(u.nfd(s)));
  }

  /** Inside the Basic Multilingual Plane the replacement is one for one. */
  lemma {:induction false} HyphenateBmp(s: string)
    requires InBmp(s)
    ensures |Hyphenate(s)| == |s|
    ensures forall i :: 0 <= i < |s| ==> Hyphenate(s)[i] == (if IsAsciiAlnum(s[i]) then s[i] else '-')
    decreases |s|
  {
    if s != [] {
      var t := s[1..];
      assert forall i :: 0 <= i < |t| ==> t[i] == s[i + 1];
      HyphenateBmp(t);
      var r := Hyphenate(s);
      assert r == HyphenUnits(s[0]) + Hyphenate(t);
      forall i | 1 <= i < |s| ensures r[i] == (if IsAsciiAlnum(s[i]) then s[i] else '-') {
        assert r[i] == Hyphenate(t)[i - 1];
      }
    }
  }

  /** The replacement works character by character. */
  lemma {:induction false} HyphenateAppend(a: string, b: string)
    ensures Hyphenate(a + b) == Hyphenate(a) + Hyphenate(b)
    decreases |a|
  {
    if a == [] {
      assert a + b == b;
    } else {
      assert (a + b)[0] == a[0] && (a + b)[1..] == a[1..] + b;
      HyphenateAppend(a[1..], b);
    }
  }

  lemma {:induction false} Utf16LengthAppend(a: string, b: string)
    ensures Utf16Length(a + b) == Utf16Length(a) + Utf16Length(b)
    decreases |a|
  {
    if a == [] {
      assert a + b == b;
    } else {
      assert (a + b)[0] == a[0] && (a + b)[1..] == a[1..] + b;
      Utf16LengthAppend(a[1..], b);
    }
  }

  /** Character `i` of the input becomes the code units of the slug that lie between the UTF-16
      offsets of characters `i` and `i + 1`: itself when it is an ASCII letter or digit, and
      otherwise one hyphen per code unit (two for a character above U+FFFF). */
  lemma HyphenateAt(s: string, i: nat)
    requires i < |s|
    ensures Utf16Length(s[..i]) <= Utf16Length(s[..i + 1]) <= |Hyphenate(s)|
    ensures Hyphenate(s)[Utf16Length(s[..i])..Utf16Length(s[..i + 1])] == HyphenUnits(s[i])
  {
    var pre, c, post := s[..i], s[i], s[i + 1..];
    SplitAt(s, i);
    HyphenateAppend(pre + [c], post);
    HyphenateAppend(pre, [c]);
    OneChar(c);
    Utf16LengthAppend(pre, [c]);
    SliceMiddle(Hyphenate(pre), HyphenUnits(c), Hyphenate(post));
  }

  lemma OneChar(c: char)
    ensures Hyphenate([c]) == HyphenUnits(c)
    ensures Utf16Length([c]) == Utf16Units(c)
  {
    assert [c][1..] == [];
    assert HyphenUnits(c) + [] == HyphenUnits(c);
  }

  lemma SplitAt<T>(s: seq<T>, i: nat)
    requires i < |s|
    ensures s == s[..i] + [s[i]] + s[i + 1..]
    ensures s[..i + 1] == s[..i] + [s[i]]
  {
  }

  lemma SliceMiddle<T>(a: seq<T>, m: seq<T>, c: seq<T>)
    ensures (a + m + c)[|a|..|a| + |m|] == m
  {
  }

  /** A character outside the Basic Multilingual Plane, such as U+20BB7 in the surname 𠮷田, is a
      surrogate pair to the regular expression and becomes two hyphens. */
  lemma SupplementaryCharTwoHyphens()
    ensures Hyphenate(['\U{20BB7}', 'a']) == "--a"
  {
    assert ['\U{20BB7}', 'a'][1..] == ['a'];
    assert ['a'][1..] == [];
  }

  /** Slug text is a fixed point of the two replacements: it holds no combining mark and no
      character that would become a hyphen. */
  lemma {:induction false} SlugFixedPoint(s: string)
    requires IsSlug(s)
    ensures StripMarks(s) == s
    ensures Hyphenate(s) == s
  {
    if s != [] {
      assert IsSlug(s[1..]);
      SlugFixedPoint(s[1..]);
    }
  }

  /** Removing marks distributes over concatenation, so it works position by position. */
  lemma {:induction false} StripMarksAppend(a: string, b: string)
    ensures StripMarks(a + b) == StripMarks(a) + StripMarks(b)
    decreases |a|
  {
    if a == [] {
      assert a + b == b;
    } else {
      assert (a + b)[1..] == a[1..] + b;
      StripMarksAppend(a[1..], b);
    }
  }

  /** Round trip: slugs contain no `_`, so the file name determines both of them. */
  lemma FileNameRoundTrip(cleanArtist: string, cleanTitle: string)
    requires IsSlug(cleanArtist) && IsSlug(cleanTitle)
    ensures SplitFileName(FileName(cleanArtist, cleanTitle)) == Some((cleanArtist, cleanTitle))
  {
    var f := FileName(cleanArtist, cleanTitle);
    var stem := cleanArtist + "_" + cleanTitle;
    assert f == stem + ".jpg";
    assert f[|f| - 4..] == ".jpg";
    assert f[..|f| - 4] == stem;
    assert stem[|cleanArtist|] == '_';
    forall i | 0 <= i < |cleanArtist| ensures stem[i] != '_' {
      assert stem[i] == cleanArtist[i];
      assert IsSlugChar(cleanArtist[i]);
    }
    var k := FirstUnderscore(stem);
    assert k == Some(|cleanArtist|);
    assert stem[..|cleanArtist|] == cleanArtist;
    assert stem[|cleanArtist| + 1..] == cleanTitle;
  }

  /** Two records get the same file name only when both their slugs agree. */
  lemma FileNameInjective(a1: string, t1: string, a2: string, t2: string)
    requires IsSlug(a1) && IsSlug(t1) && IsSlug(a2) && IsSlug(t2)
    requires FileName(a1, t1) == FileName(a2, t2)
    ensures a1 == a2 && t1 == t2
  {
    FileNameRoundTrip(a1, t1);
    FileNameRoundTrip(a2, t2);
  }
}
