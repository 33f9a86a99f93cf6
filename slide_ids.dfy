/**
 * Identifiers of the slides: slide k (0-based) is labelled "slide-" followed by
 * the decimal form of k + 1, and its on-screen badge is that identifier with
 * the first occurrence of "slide-" replaced by "#". A string pattern passed to
 * String.prototype.replace replaces its first occurrence; the "$" substitution
 * patterns of the replacement string are not interpreted here.
 */
module SlideIds {
  import opened Options

  const PREFIX := "slide-"
  const BADGE_MARK := "#"

  /** One slide record of the static deck. */
  datatype Slide = Slide(title: string, highlight: string, bullets: seq<string>)

  /** A slide record spread together with its position-derived identifier. */
  datatype IdentifiedSlide = IdentifiedSlide(title: string, highlight: string, bullets: seq<string>, id: string)

  predicate IsDigit(c: char) { '0' <= c <= '9' }

  predicate AllDigits(s: string) { forall i :: 0 <= i < |s| ==> IsDigit(s[i]) }

  function DigitChar(d: nat): (c: char)
    requires d < 10
    ensures IsDigit(c) && c as int - '0' as int == d
  {
    ('0' as int + d) as char
  }

  function DigitValue(c: char): nat
    requires IsDigit(c)
  {
    c as int - '0' as int
  }

  /** The decimal text of a number, as a template literal renders it. */
  function Decimal(n: nat): (s: string)
    ensures |s| >= 1 && AllDigits(s)
    ensures n >= 10 <==> |s| >= 2
    ensures s[0] == '0' ==> n == 0
    decreases n
  {
    if n < 10 then [DigitChar(n)] else Decimal(n / 10) + [DigitChar(n % 10)]
  }

  /** Reads a string of decimal digits back as a number (the empty string reads as 0). */
  function ParseDecimal(s: string): nat
    requires AllDigits(s)
    decreases |s|
  {
    if s == [] then 0 else ParseDecimal(s[..|s| - 1]) * 10 + DigitValue(s[|s| - 1])
  }

  /** Decimal text is a faithful encoding: parsing it gives the number back. */
  lemma {:induction false} ParseDecimalOfDecimal(n: nat)
    ensures ParseDecimal(Decimal(n)) == n
    decreases n
  {
    var s := Decimal(n);
    if n >= 10 {
      ParseDecimalOfDecimal(n / 10);
      assert s[..|s| - 1] == Decimal(n / 10);
    }
  }

  /** The identifier the deck assigns to the slide at position index. */
  function SlideId(index: nat): (id: string)
    ensures MatchAt(id, PREFIX, 0) && AllDigits(id[|PREFIX|..])
  {
    PREFIX + Decimal(index + 1)
  }

  /** An identifier starts with "slide-" and the digits after it read as the 1-based position. */
  lemma {:induction false} SlideIdPosition(index: nat)
    ensures |SlideId(index)| > |PREFIX| && SlideId(index)[..|PREFIX|] == PREFIX
    ensures AllDigits(SlideId(index)[|PREFIX|..])
    ensures ParseDecimal(SlideId(index)[|PREFIX|..]) == index + 1
  {
    assert SlideId(index)[|PREFIX|..] == Decimal(index + 1);
    ParseDecimalOfDecimal(index + 1);
  }

  /** Different positions get different identifiers. */
  lemma SlideIdsDistinct(j: nat, k: nat)
    requires j != k
    ensures SlideId(j) != SlideId(k)
  {
    SlideIdPosition(j);
    SlideIdPosition(k);
  }

  /** The deck's records with their identifiers attached, in the same order. */
  function ChunkedSlides(slides: seq<Slide>): (r: seq<IdentifiedSlide>)
    ensures |r| == |slides|
    ensures forall k :: 0 <= k < |r| ==>
      r[k].title == slides[k].title && r[k].highlight == slides[k].highlight &&
      r[k].bullets == slides[k].bullets
    ensures forall k :: 0 <= k < |r| ==> r[k].id == SlideId(k)
  {
    seq(|slides|, k requires 0 <= k < |slides| =>
      IdentifiedSlide(slides[k].title, slides[k].highlight, slides[k].bullets, SlideId(k)))
  }

  /** The identifiers of the chunked deck are pairwise distinct, so they serve as keys. */
  lemma ChunkedSlidesIdsDistinct(slides: seq<Slide>, j: nat, k: nat)
    requires j < |slides| && k < |slides| && j != k
    ensures ChunkedSlides(slides)[j].id != ChunkedSlides(slides)[k].id
  {
    SlideIdsDistinct(j, k);
  }

  /** True when pat occurs in s starting at position j. */
  predicate MatchAt(s: string, pat: string, j: nat)
  {
    j + |pat| <= |s| && s[j..j + |pat|] == pat
  }

  /** The first position at or after from where pat occurs in s. */
  function IndexFrom(s: string, pat: string, from: nat): (r: Option<nat>)
    requires from <= |s|
    ensures r.Some? ==> from <= r.value && MatchAt(s, pat, r.value)
    ensures r.Some? ==> forall j :: from <= j < r.value ==> !MatchAt(s, pat, j)
    ensures r.None? ==> forall j :: from <= j ==> !MatchAt(s, pat, j)
    decreases |s| - from
  {
    if from + |pat| > |s| then None
    else if s[from..from + |pat|] == pat then Some(from)
    else IndexFrom(s, pat, from + 1)
  }

  /** Replaces the first occurrence of pat in s by rep; s is returned unchanged when pat does not occur. */
  function Replace(s: string, pat: string, rep: string): (r: string)
    ensures (forall j :: !MatchAt(s, pat, j)) ==> r == s
    ensures MatchAt(s, pat, 0) ==> r == rep + s[|pat|..]
    ensures forall i: nat :: MatchAt(s, pat, i) && (forall j :: 0 <= j < i ==> !MatchAt(s, pat, j)) ==>
      r == s[..i] + rep + s[i + |pat|..]
  {
    match IndexFrom(s, pat, 0)
    case None => s
    case Some(i) => s[..i] + rep + s[i + |pat|..]
  }

  /** The badge text shown on a slide card. */
  function Badge(id: string): (r: string)
    ensures (forall j :: !MatchAt(id, PREFIX, j)) ==> r == id
    ensures MatchAt(id, PREFIX, 0) ==> r == BADGE_MARK + id[|PREFIX|..]
  {
    Replace(id, PREFIX, BADGE_MARK)
  }

  /** The slide at position k carries the badge "#" followed by k + 1. */
  lemma {:induction false} BadgeOfSlide(k: nat)
    ensures Badge(SlideId(k)) == BADGE_MARK + Decimal(k + 1)
  {
    var id := SlideId(k);
    assert id[..|PREFIX|] == PREFIX;
    assert MatchAt(id, PREFIX, 0);
    assert id[|PREFIX|..] == Decimal(k + 1);
  }
}
