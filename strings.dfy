/** File names as the scripts see them: Python's ordering of `str` values,
    `str.lower()` and `pathlib.PurePath.suffix`, and the image-extension test
    that both the extractor and the reference builder apply. */
module Strings {

  /** Python's `a <= b` on `str`: lexicographic by code point, a proper
      prefix ordered first. `sorted` on names uses this order. */
  predicate Le(a: string, b: string)
  {
    if a == [] then true
    else if b == [] then false
    else if a[0] != b[0] then a[0] < b[0]
    else Le(a[1..], b[1..])
  }

  /** Python's `a < b` on `str`. */
  predicate Lt(a: string, b: string)
  {
    Le(a, b) && a != b
  }

  lemma {:induction false} LeReflexive(a: string)
    ensures Le(a, a)
  {
    if a != [] {
      LeReflexive(a[1..]);
    }
  }

  lemma {:induction false} LeTotal(a: string, b: string)
    ensures Le(a, b) || Le(b, a)
  {
    if a != [] && b != [] && a[0] == b[0] {
      LeTotal(a[1..], b[1..]);
    }
  }

  lemma {:induction false} LeTransitive(a: string, b: string, c: string)
    requires Le(a, b) && Le(b, c)
    ensures Le(a, c)
  {
    if a != [] && b != [] && c != [] && a[0] == b[0] && b[0] == c[0] {
      LeTransitive(a[1..], b[1..], c[1..]);
    }
  }

  /** `str.lower()` restricted to what matters for an extension test: ASCII
      upper-case letters map to lower case, every other character is kept. */
  function LowerChar(c: char): char
  {
    if 'A' <= c <= 'Z' then (c as int + 32) as char else c
  }

  function Lower(s: string): (r: string)
    ensures |r| == |s|
    ensures forall k :: 0 <= k < |s| ==> r[k] == LowerChar(s[k])
  {
    if s == [] then [] else [LowerChar(s[0])] + Lower(s[1..])
  }

  /** `str.rfind(c)`: the last index holding `c`, or -1. */
  function RFind(s: string, c: char): (i: int)
    ensures -1 <= i < |s|
    ensures i >= 0 ==> s[i] == c
    ensures forall k :: i < k < |s| ==> s[k] != c
  {
    if s == [] then -1
    else if s[|s| - 1] == c then |s| - 1
    else RFind(s[..|s| - 1], c)
  }

  /** `PurePath(name).suffix`: from the last dot of the name to its end, when
      that dot is neither the first nor the last character; otherwise "". */
  function Suffix(name: string): string
  {
    var i := RFind(name, '.');
    if 0 < i < |name| - 1 then name[i..] else ""
  }

  predicate IsImageExtension(e: string)
  {
    e == ".jpg" || e == ".jpeg" || e == ".png"
  }

  /** `p.suffix.lower() in {".jpg", ".jpeg", ".png"}`. */
  predicate HasImageSuffix(name: string)
  {
    IsImageExtension(Lower(Suffix(name)))
  }

  /** An independent reading of the same test: the name is a non-empty stem
      followed by one of the three extensions, in any letter case. */
  predicate EndsWithImageExtension(name: string)
  {
    (|name| > 4 && (Lower(name[|name| - 4..]) == ".jpg" || Lower(name[|name| - 4..]) == ".png"))
    || (|name| > 5 && Lower(name[|name| - 5..]) == ".jpeg")
  }

  lemma SuffixOfTail(name: string, n: nat)
    requires 0 < n < |name| && name[|name| - n] == '.'
    requires forall k :: |name| - n < k < |name| ==> name[k] != '.'
    ensures RFind(name, '.') == |name| - n
  {
  }

  lemma ImageSuffixEnds(name: string)
    requires HasImageSuffix(name)
    ensures EndsWithImageExtension(name)
  {
    var i := RFind(name, '.');
    assert 0 < i < |name| - 1;
    var s := name[i..];
    assert Suffix(name) == s;
    assert |Lower(s)| == |s| == |name| - i;
    if |s| == 4 {
      assert name[|name| - 4..] == s;
    } else {
      assert |s| == 5;
      assert name[|name| - 5..] == s;
    }
  }

  lemma EndsImageSuffix(name: string, n: nat)
    requires n == 4 || n == 5
    requires |name| > n && IsImageExtension(Lower(name[|name| - n..]))
    ensures HasImageSuffix(name)
  {
    var t := name[|name| - n..];
    assert LowerChar(t[0]) == '.';
    forall k | 1 <= k < n
      ensures t[k] != '.'
    {
      assert Lower(t)[k] == LowerChar(t[k]);
      assert Lower(t)[k] != '.';
    }
    forall k | |name| - n < k < |name|
      ensures name[k] != '.'
    {
      assert name[k] == t[k - (|name| - n)];
      assert 1 <= k - (|name| - n) < n;
    }
    SuffixOfTail(name, n);
    assert Suffix(name) == t;
  }

  /** The extension test accepts exactly the names with a non-empty stem and
      one of the three extensions; a bare ".jpg" (a hidden file) is refused. */
  lemma HasImageSuffixIff(name: string)
    ensures HasImageSuffix(name) <==> EndsWithImageExtension(name)
  {
    if HasImageSuffix(name) {
      ImageSuffixEnds(name);
    }
    if |name| > 4 && IsImageExtension(Lower(name[|name| - 4..])) {
      EndsImageSuffix(name, 4);
    }
    if |name| > 5 && IsImageExtension(Lower(name[|name| - 5..])) {
      EndsImageSuffix(name, 5);
    }
  }

  /** The entries that pass the image-extension test, in their order (the
      comprehension of `list_images`, the `continue` of
      `build_reference_embedding`). */
  function ImageEntries(entries: seq<string>): (r: seq<string>)
    ensures forall x :: x in r <==> x in entries && HasImageSuffix(x)
  {
    if entries == [] then []
    else (if HasImageSuffix(entries[0]) then [entries[0]] else []) + ImageEntries(entries[1..])
  }
}
