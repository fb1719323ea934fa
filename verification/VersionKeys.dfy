/** The storage keys of image versions (src/model/Image.cpp): image key, size and
    extension in one string. */
module VersionKeys {

  function Digit(n: nat): char
    requires n < 10
  {
    '0' + n as char
  }

  function Decimal(n: nat): string {
    if n < 10 then [Digit(n)] else Decimal(n / 10) + [Digit(n % 10)]
  }

  predicate Digits(s: string) {
    forall i :: 0 <= i < |s| ==> '0' <= s[i] <= '9'
  }

  // ----- What is spelled -----

  /** Reading a string as a number in base ten, digit by digit. */
  ghost function Value(s: string): int {
    if s == "" then 0 else Value(s[..|s| - 1]) * 10 + (s[|s| - 1] as int - '0' as int)
  }

  /** The usual spelling of n: digits, no leading zero, and n when read in base ten. */
  ghost predicate Spells(s: string, n: nat) {
    && s != "" && Digits(s) && Value(s) == n && (|s| > 1 ==> s[0] != '0')
  }

  lemma {:induction false} DecimalSpells(n: nat)
    ensures Spells(Decimal(n), n)
    ensures n > 0 ==> Decimal(n)[0] != '0'
  {
    var s := Decimal(n);
    if n >= 10 {
      DecimalSpells(n / 10);
      assert s[..|s| - 1] == Decimal(n / 10);
    } else {
      assert s[..0] == "";
    }
  }

  /** There is only one. */
  lemma {:induction false} SpellingUnique(s: string, t: string, n: nat)
    requires Spells(s, n) && Spells(t, n)
    ensures s == t
    decreases |s|
  {
    var a, b := s[..|s| - 1], t[..|t| - 1];
    LastDigit(s, n);
    LastDigit(t, n);
    if |s| > 1 && |t| > 1 {
      assert a[0] == s[0] && b[0] == t[0];
      SpellingUnique(a, b, n / 10);
    } else if |s| > 1 {
      LeadingDigit(a);
    } else if |t| > 1 {
      LeadingDigit(b);
    }
    assert s == a + [s[|s| - 1]] && t == b + [t[|t| - 1]];
  }

  lemma LastDigit(s: string, n: nat)
    requires Spells(s, n)
    ensures Value(s[..|s| - 1]) == n / 10 && s[|s| - 1] as int - '0' as int == n % 10
    ensures |s| == 1 ==> n < 10
  {
    NotNegative(s[..|s| - 1]);
    if |s| == 1 { assert s[..0] == ""; }
  }

  lemma {:induction false} NotNegative(s: string)
    requires Digits(s)
    ensures Value(s) >= 0
  {
    if s != "" { NotNegative(s[..|s| - 1]); }
  }

  lemma {:induction false} LeadingDigit(s: string)
    requires s != "" && Digits(s) && s[0] != '0'
    ensures Value(s) > 0
  {
    if |s| > 1 { LeadingDigit(s[..|s| - 1]); } else { assert s[..0] == ""; }
  }

  lemma DecimalIsDigits(n: nat)
    ensures Decimal(n) != [] && Digits(Decimal(n))
  {
    DecimalSpells(n);
  }

  lemma DecimalInjective(a: nat, b: nat)
    requires Decimal(a) == Decimal(b)
    ensures a == b
  {
    DecimalSpells(a);
    DecimalSpells(b);
  }

  // ----- Keys -----

  function VersionKey(imageKey: string, width: nat, height: nat, extension: string): string {
    imageKey + "_" + Decimal(width) + "x" + Decimal(height) + (if extension == "" then "" else "_" + extension)
  }

  /** Two numbers, each followed by something that does not begin with a digit. */
  lemma NumbersEnd(a: string, r: string, b: string, s: string)
    requires Digits(a) && Digits(b) && a + r == b + s
    requires r == [] || !('0' <= r[0] <= '9')
    requires s == [] || !('0' <= s[0] <= '9')
    ensures a == b && r == s
  {
    assert r != [] ==> (a + r)[|a|] == r[0];
    assert s != [] ==> (b + s)[|b|] == s[0];
    assert |a| == |b|;
    assert (a + r)[..|a|] == a && (b + s)[..|b|] == b;
    assert (a + r)[|a|..] == r && (b + s)[|b|..] == s;
  }

  lemma BothPrefixes(k: string, r: string, k': string, r': string)
    requires k + r == k' + r'
    ensures k <= k' || k' <= k
  {
    var whole := k + r;
    assert k == whole[..|k|] && k' == whole[..|k'|];
  }

  function Suffix(extension: string): string {
    if extension == "" then "" else "_" + extension
  }

  lemma SuffixInjective(e: string, e': string)
    requires Suffix(e) == Suffix(e')
    ensures e == e'
  {
    if e != "" { assert Suffix(e)[1..] == e && Suffix(e')[1..] == e'; }
  }

  lemma SizesInjective(w: string, h: string, t: string, w': string, h': string, t': string)
    requires Digits(w) && Digits(h) && Digits(w') && Digits(h')
    requires (t == [] || t[0] == '_') && (t' == [] || t'[0] == '_')
    requires w + ("x" + (h + t)) == w' + ("x" + (h' + t'))
    ensures w == w' && h == h' && t == t'
  {
    NumbersEnd(w, "x" + (h + t), w', "x" + (h' + t'));
    assert ("x" + (h + t))[1..] == h + t && ("x" + (h' + t'))[1..] == h' + t';
    NumbersEnd(h, t, h', t');
  }

  lemma KeyParts(k: string, w: nat, h: nat, e: string)
    ensures VersionKey(k, w, h, e) == k + ("_" + (Decimal(w) + ("x" + (Decimal(h) + Suffix(e)))))
  {
    var dw, dh, t := Decimal(w), Decimal(h), Suffix(e);
    assert k + "_" + dw + "x" + dh + t == k + ("_" + (dw + ("x" + (dh + t))));
  }

  function Size(w: nat, h: nat): string {
    "_" + (Decimal(w) + ("x" + Decimal(h)))
  }

  lemma SizedKey(k: string, w: nat, h: nat, e: string)
    ensures VersionKey(k, w, h, e) == k + (Size(w, h) + Suffix(e))
  {
    var dw, dh, t := Decimal(w), Decimal(h), Suffix(e);
    assert k + "_" + dw + "x" + dh + t == k + ("_" + (dw + ("x" + dh)) + t);
  }

  /** For one image, a key determines the size and the extension. */
  lemma SameImageInjective(k: string, w: nat, h: nat, e: string, w': nat, h': nat, e': string)
    requires VersionKey(k, w, h, e) == VersionKey(k, w', h', e')
    ensures w == w' && h == h' && e == e'
  {
    KeyParts(k, w, h, e);
    KeyParts(k, w', h', e');
    DecimalIsDigits(w);
    DecimalIsDigits(w');
    DecimalIsDigits(h);
    DecimalIsDigits(h');
    hide VersionKey, Decimal, Digits;
    var size := Decimal(w) + ("x" + (Decimal(h) + Suffix(e)));
    var size' := Decimal(w') + ("x" + (Decimal(h') + Suffix(e')));
    assert size == (k + ("_" + size))[|k| + 1..] && size' == (k + ("_" + size'))[|k| + 1..];
    SizesInjective(Decimal(w), Decimal(h), Suffix(e), Decimal(w'), Decimal(h'), Suffix(e'));
    DecimalInjective(w, w');
    DecimalInjective(h, h');
    SuffixInjective(e, e');
  }

  // ----- Which image keys can share a storage key -----

  /** `l` goes on after k like the key of one of k's versions does after the image
      key: with a size, and then an extension or nothing more. */
  ghost predicate Mimics(l: string, k: string) {
    exists w, h :: VersionKey(k, w, h, "") + "_" <= l + "_"
  }

  /** A storage key spelled out: the image key, the size in base ten, and the
      extension if there is one. */
  lemma KeySpelled(k: string, w: nat, h: nat, e: string, width: string, height: string)
    requires Spells(width, w) && Spells(height, h)
    ensures VersionKey(k, w, h, e) == k + "_" + width + "x" + height + (if e == "" then "" else "_" + e)
  {
    DecimalSpells(w);
    DecimalSpells(h);
    SpellingUnique(width, Decimal(w), w);
    SpellingUnique(height, Decimal(h), h);
  }

  lemma KeyExample()
    ensures VersionKey("img", 100, 8, "png") == "img_100x8_png" && VersionKey("img", 100, 8, "") == "img_100x8"
  {
    assert Decimal(10) == "10" && Decimal(100) == "100" && Decimal(8) == "8";
  }

  /** Neither key looks like a version of the other one. */
  ghost predicate Separate(k: string, l: string) {
    k == l || !(Mimics(k, l) || Mimics(l, k))
  }

  ghost predicate Collide(k: string, l: string) {
    exists w, h, e, w', h', e' :: VersionKey(k, w, h, e) == VersionKey(l, w', h', e')
  }

  /** An extension and a size under which a version of k and one of l share a key. */
  lemma MimicsCollide(k: string, l: string)
    requires Mimics(l, k)
    ensures Collide(k, l) && Collide(l, k)
  {
    var w, h :| VersionKey(k, w, h, "") + "_" <= l + "_";
    var base, size := VersionKey(k, w, h, ""), Size(0, 0);
    assert size == "_0x0" by { assert Decimal(0) == "0"; }
    var e := (l + "_")[|base| + 1..] + size[1..];
    SizedKey(k, w, h, "");
    SizedKey(k, w, h, e);
    SizedKey(l, 0, 0, "");
    assert Suffix("") == "" && Suffix(e) == "_" + e;
    hide VersionKey, Size, Suffix;
    Glued(base, l, size, e);
    assert VersionKey(k, w, h, e) == base + ("_" + e) by { assert base == k + Size(w, h); }
    assert VersionKey(l, 0, 0, "") == l + size;
  }

  lemma Glued(base: string, l: string, size: string, e: string)
    requires base + "_" <= l + "_" && size != "" && size[0] == '_'
    requires e == (l + "_")[|base| + 1..] + size[1..]
    ensures base + ("_" + e) == l + size
  {
    assert l + "_" == (base + "_") + (l + "_")[|base| + 1..];
    assert l + size == (l + "_") + size[1..];
  }

  /** If k begins l, a shared key has to pass for a size and an extension of k
      where l goes on. */
  lemma CollisionMimics(k: string, w: nat, h: nat, e: string, l: string, w': nat, h': nat, e': string)
    requires k < l && VersionKey(k, w, h, e) == VersionKey(l, w', h', e')
    ensures Mimics(l, k)
  {
    var size, size' := Size(w, h), Size(w', h');
    SizedKey(k, w, h, e);
    SizedKey(l, w', h', e');
    SizedKey(k, w, h, "");
    SizeHasOneBar(w, h);
    SizeHasOneBar(w', h');
    SuffixStarts(e);
    hide VersionKey, Size, Suffix;
    var r := l[|k|..];
    assert l == k + r;
    var whole := k + (size + Suffix(e));
    assert whole == l + (size' + Suffix(e'));
    assert size + Suffix(e) == r + (size' + Suffix(e')) by {
      assert whole[|k|..] == size + Suffix(e);
      assert (l + (size' + Suffix(e')))[|k|..] == r + (size' + Suffix(e'));
    }
    BarAfterSize(size, Suffix(e), r, size' + Suffix(e'));
    assert VersionKey(k, w, h, "") == k + size by { assert size + "" == size; }
    assert k + size + "_" <= l + "_" by { assert k + size + "_" == k + (size + "_") && l + "_" == k + (r + "_"); }
  }

  lemma SuffixStarts(e: string)
    ensures Suffix("") == "" && (Suffix(e) == "" || Suffix(e)[0] == '_')
  {
  }

  lemma SizeHasOneBar(w: nat, h: nat)
    ensures var size := Size(w, h); |size| > 0 && size[0] == '_' && forall i :: 0 < i < |size| ==> size[i] != '_'
  {
    DecimalIsDigits(w);
    DecimalIsDigits(h);
  }

  /** The second bar of a key that begins with a size comes right after the size. */
  lemma BarAfterSize(size: string, t: string, r: string, s: string)
    requires size + t == r + s && r != "" && s != "" && s[0] == '_'
    requires size != "" && forall i :: 0 < i < |size| ==> size[i] != '_'
    requires t == "" || t[0] == '_'
    ensures size + "_" <= r + "_"
  {
    assert (r + s)[|r|] == '_';
    assert forall i :: 0 < i < |size| ==> (size + t)[i] == size[i];
    assert |r| >= |size|;
    assert size == (size + t)[..|size|] == (r + s)[..|size|] == r[..|size|];
    if |r| > |size| { assert r[|size|] == (r + s)[|size|] == (size + t)[|size|] == t[0]; }
  }

  /** Versions of two different images can share a storage key if and only if one
      image key looks like a version of the other image. */
  lemma CollideExactly(k: string, l: string)
    requires k != l
    ensures Collide(k, l) <==> Mimics(k, l) || Mimics(l, k)
  {
    if Mimics(l, k) { MimicsCollide(k, l); }
    if Mimics(k, l) { MimicsCollide(l, k); }
    if Collide(k, l) && !(Mimics(k, l) || Mimics(l, k)) {
      var w, h, e, w', h', e' :| VersionKey(k, w, h, e) == VersionKey(l, w', h', e');
      KeysInjective(k, w, h, e, l, w', h', e');
    }
  }

  /** A key determines the image, the size and the extension it was made from, as
      long as no image key looks like a version of another image. */
  lemma KeysInjective(k: string, w: nat, h: nat, e: string, l: string, w': nat, h': nat, e': string)
    requires Separate(k, l) && VersionKey(k, w, h, e) == VersionKey(l, w', h', e')
    ensures k == l && w == w' && h == h' && e == e'
  {
    if k == l {
      SameImageInjective(k, w, h, e, w', h', e');
    } else {
      SizedKey(k, w, h, e);
      SizedKey(l, w', h', e');
      BothPrefixes(k, Size(w, h) + Suffix(e), l, Size(w', h') + Suffix(e'));
      if k <= l { CollisionMimics(k, w, h, e, l, w', h', e'); } else { CollisionMimics(l, w', h', e', k, w, h, e); }
    }
  }

  /** Two images with a common storage key. */
  lemma KeysCanCollide()
    ensures VersionKey("a", 1, 1, "b_2x3") == VersionKey("a_1x1_b", 2, 3, "")
  {
    assert Decimal(1) == "1" && Decimal(2) == "2" && Decimal(3) == "3";
  }

  /** Image keys of one length, as they are generated, are separate. */
  lemma SameLengthIsSeparate(k: string, l: string)
    requires |k| == |l|
    ensures Separate(k, l) && (k != l ==> !Collide(k, l))
  {
    LongerThan(k, l);
    LongerThan(l, k);
    if k != l { CollideExactly(k, l); }
  }

  lemma LongerThan(l: string, k: string)
    ensures Mimics(l, k) ==> |l| > |k|
  {
    forall w, h ensures |VersionKey(k, w, h, "")| > |k| {
      KeyParts(k, w, h, "");
    }
  }

  /** A key that merely begins with another one does no harm. */
  lemma PrefixIsSeparate()
    ensures Separate("a", "ab")
  {
  }
}
