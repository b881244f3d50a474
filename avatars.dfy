/** Avatar helpers: a color chosen by hashing the display name into a 12-entry palette, and up
    to two initials taken from the words of the name. */
module Avatars {
  import opened JsStrings

  /** The palette, in its declared order. */
  const Palette: seq<string> := [
    "#1976d2", "#388e3c", "#f57c00", "#d32f2f", "#7b1fa2", "#303f9f",
    "#c2185b", "#ff6f00", "#2e7d32", "#1565c0", "#6a1b9a", "#c62828"
  ]

  /** The palette holds twelve distinct, non-empty colors. */
  lemma PaletteDistinct()
    ensures |Palette| == 12
    ensures forall i :: 0 <= i < |Palette| ==> Palette[i] != ""
    ensures forall i, j :: 0 <= i < j < |Palette| ==> Palette[i] != Palette[j]
  {
  }

  /** The color used when the palette lookup is falsy. */
  const FallbackColor: string := "#1976d2"

  const Two32: int := 0x1_0000_0000
  const Two31: int := 0x8000_0000

  /** ECMAScript ToInt32: the integer in [-2^31, 2^31) congruent to `x` modulo 2^32. */
  function ToInt32(x: int): (r: int)
    ensures -Two31 <= r < Two31
    ensures (x - r) % Two32 == 0
    ensures -Two31 <= x < Two31 ==> r == x
  {
    var m := x % Two32;
    if m < Two31 then m else m - Two32
  }

  /** `x << 5`: both the operand and the shifted result are taken as 32-bit signed integers. */
  function ShiftLeft5(x: int): (r: int)
    ensures -Two31 <= r < Two31
    ensures (ToInt32(x) * 32 - r) % Two32 == 0
  {
    ToInt32(ToInt32(x) * 32)
  }

  /** `x` and `y` differ by a multiple of 2^32. */
  predicate Congruent(x: int, y: int) {
    (x - y) % Two32 == 0
  }

  /** A multiple of 2^32 plus `k` times another is one. */
  lemma MultiplesCombine(x: int, y: int, k: int)
    requires x % Two32 == 0 && y % Two32 == 0
    ensures (x + k * y) % Two32 == 0
  {
    var a, b := x / Two32, y / Two32;
    assert x == a * Two32 && y == b * Two32;
    assert x + k * y == (a + k * b) * Two32;
  }

  /** The negation of a multiple of 2^32 is one. */
  lemma MultipleNegated(x: int)
    requires x % Two32 == 0
    ensures (-x) % Two32 == 0
  {
    var a := x / Two32;
    assert x == a * Two32;
    assert -x == (-a) * Two32;
  }

  /** The polynomial string hash `s[0]*31^(n-1) + ... + s[n-1]` over the unbounded integers:
      what the loop computes when no shift ever overflows. */
  function Poly31(s: string): int {
    if s == [] then 0 else 31 * Poly31(s[..|s| - 1]) + s[|s| - 1] as int
  }

  /** One iteration of the hash loop: `hash = code + ((hash << 5) - hash)`; the running hash
      itself is never truncated. Modulo 2^32 the step is `31 * hash + code`. */
  function HashStep(hash: int, c: char): (r: int)
    ensures Congruent(r, 31 * hash + c as int)
  {
    var t, sh := ToInt32(hash), ShiftLeft5(hash);
    var r := c as int + (sh - hash);
    MultipleNegated(t * 32 - sh);
    MultipleNegated(hash - t);
    assert r - (31 * hash + c as int) == (sh - t * 32) + 32 * (t - hash);
    MultiplesCombine(sh - t * 32, t - hash, 32);
    r
  }

  /** The hash after the loop has consumed every character of `s`, first to last: modulo 2^32,
      the polynomial hash of `s`. */
  function NameHash(s: string): (r: int)
    ensures Congruent(r, Poly31(s))
  {
    if s == [] then 0
    else
      var h := NameHash(s[..|s| - 1]);
      var r := HashStep(h, s[|s| - 1]);
      assert r - Poly31(s) == (r - (31 * h + s[|s| - 1] as int)) + 31 * (h - Poly31(s[..|s| - 1]));
      MultiplesCombine(r - (31 * h + s[|s| - 1] as int), h - Poly31(s[..|s| - 1]), 31);
      r
  }

  function Abs(x: int): nat {
    if x < 0 then -x else x
  }

  /** `Math.abs(hash) % avatarColors.length`. */
  function ColorIndex(hash: int): (i: nat)
    ensures i < |Palette|
  {
    Abs(hash) % |Palette|
  }

  /** `avatarColors[index] || '#1976d2'`: an out-of-range or empty entry falls back. Every
      index the hash can produce picks its palette entry. */
  function ColorAt(index: int): (color: string)
    ensures 0 <= index < |Palette| ==> color == Palette[index]
  {
    if 0 <= index < |Palette| && Palette[index] != "" then Palette[index] else FallbackColor
  }

  /** The color `getAvatarColor` assigns to `name`. */
  function AvatarColor(name: string): (color: string)
    ensures color in Palette
    ensures color == Palette[ColorIndex(NameHash(name))]
  {
    ColorAt(ColorIndex(NameHash(name)))
  }

  /** The empty name hashes to 0 and so gets the first palette entry. */
  lemma EmptyNameColor()
    ensures NameHash("") == 0 && AvatarColor("") == Palette[0] == "#1976d2"
  {
  }

  /** `getAvatarColor`: the hash loop over the characters, then the palette lookup. */
  method GetAvatarColor(name: string) returns (color: string)
    ensures color == AvatarColor(name)
    ensures color in Palette
    ensures name == "" ==> color == "#1976d2"
  {
    var hash := 0;
    for i := 0 to |name|
      invariant hash == NameHash(name[..i])
    {
      assert name[..i + 1][..i] == name[..i];
      assert NameHash(name[..i + 1]) == HashStep(NameHash(name[..i]), name[i]);
      hash := name[i] as int + (ShiftLeft5(hash) - hash);
    }
    assert name[..|name|] == name;
    var index := Abs(hash) % |Palette|;
    color := ColorAt(index);
  }

  /** `.map(word => word.charAt(0)).join('')`: at most one character per word, and the first
      character of every non-empty word is among them. */
  function FirstChars(words: seq<string>): (r: string)
    ensures |r| <= |words|
    ensures forall k :: 0 <= k < |words| && words[k] != "" ==> words[k][0] in r
  {
    if words == [] then ""
    else
      var rest := FirstChars(words[1..]);
      assert forall k :: 1 <= k < |words| ==> words[k] == words[1..][k - 1];
      FirstChar(words[0]) + rest
  }

  /** The number of words that are not empty. */
  function NonEmptyCount(words: seq<string>): nat {
    if words == [] then 0 else (if words[0] == "" then 0 else 1) + NonEmptyCount(words[1..])
  }

  /** Each non-empty word contributes exactly one character, an empty word none. */
  lemma {:induction false} FirstCharsLength(words: seq<string>)
    ensures |FirstChars(words)| == NonEmptyCount(words)
  {
    if words != [] {
      FirstCharsLength(words[1..]);
    }
  }

  /** When no word is empty, the k-th character is the first character of the k-th word. */
  lemma {:induction false} FirstCharsOfWords(words: seq<string>)
    requires forall k :: 0 <= k < |words| ==> words[k] != ""
    ensures |FirstChars(words)| == |words|
    ensures forall k :: 0 <= k < |words| ==> FirstChars(words)[k] == words[k][0]
  {
    if words != [] {
      FirstCharsOfWords(words[1..]);
      assert FirstChars(words) == [words[0][0]] + FirstChars(words[1..]);
    }
  }

  /** The words that are not empty, in their order. */
  function NonEmptyWords(words: seq<string>): (r: seq<string>)
    ensures |r| == NonEmptyCount(words)
    ensures forall k :: 0 <= k < |r| ==> r[k] != ""
  {
    if words == [] then []
    else if words[0] == "" then NonEmptyWords(words[1..])
    else [words[0]] + NonEmptyWords(words[1..])
  }

  /** Empty words contribute nothing: the first characters of the words are those of the
      non-empty words. */
  lemma {:induction false} FirstCharsSkipsEmpty(words: seq<string>)
    ensures FirstChars(words) == FirstChars(NonEmptyWords(words))
  {
    if words != [] {
      FirstCharsSkipsEmpty(words[1..]);
      if words[0] == "" {
        assert FirstChars(words) == FirstChars(words[1..]);
      } else {
        var ne := [words[0]] + NonEmptyWords(words[1..]);
        assert ne[0] == words[0] && ne[1..] == NonEmptyWords(words[1..]);
        assert FirstChars(words) == FirstChar(words[0]) + FirstChars(words[1..]);
      }
    }
  }

  /** The k-th joined first character is the first character of the k-th non-empty word,
      whatever empty words a leading, trailing or doubled space produced. */
  lemma FirstCharsOfNonEmptyWords(words: seq<string>)
    ensures |FirstChars(words)| == |NonEmptyWords(words)|
    ensures forall k :: 0 <= k < |NonEmptyWords(words)| ==>
      FirstChars(words)[k] == NonEmptyWords(words)[k][0]
  {
    FirstCharsSkipsEmpty(words);
    FirstCharsOfWords(NonEmptyWords(words));
  }

  /** `getInitials`: split on a single space, the first character of each word, joined,
      upper-cased by `upper` (String.prototype.toUpperCase) and cut to at most two characters. */
  function GetInitials(name: string, upper: string -> string): (r: string)
    ensures |r| <= 2
    ensures |r| == Min(2, |upper(FirstChars(Split(name, ' ')))|)
    ensures r == upper(FirstChars(Split(name, ' ')))[..|r|]
  {
    Prefix(upper(FirstChars(Split(name, ' '))), 2)
  }

  /** The empty name has no initials, provided upper-casing keeps "" empty. */
  lemma EmptyNameInitials(upper: string -> string)
    requires upper("") == ""
    ensures GetInitials("", upper) == ""
  {
    assert Split("", ' ') == [""];
    assert FirstChars([""]) == "";
  }

  /** When upper-casing keeps the length, there are as many initials as non-empty words, up to two. */
  lemma InitialsLength(name: string, upper: string -> string)
    requires |upper(FirstChars(Split(name, ' ')))| == |FirstChars(Split(name, ' '))|
    ensures |GetInitials(name, upper)| == Min(2, NonEmptyCount(Split(name, ' ')))
  {
    FirstCharsLength(Split(name, ' '));
  }

  /** The properties `getAvatarProps` hands to the avatar component. */
  datatype AvatarProps = AvatarProps(color: string, textColor: string, text: string, size: string)

  /** `getAvatarProps`. */
  method GetAvatarProps(name: string, upper: string -> string) returns (props: AvatarProps)
    ensures props.color == AvatarColor(name) && props.color in Palette
    ensures props.text == GetInitials(name, upper) && |props.text| <= 2
    ensures props.textColor == "white" && props.size == "40px"
  {
    var color := GetAvatarColor(name);
    props := AvatarProps(color, "white", GetInitials(name, upper), "40px");
  }
}
