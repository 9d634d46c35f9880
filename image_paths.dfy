/**
 * `os.path.join('image/', f"{index + 1}.jpg")`: the enrollment loop pairs the
 * row at 0-based position `index` with the image numbered `index + 1`.
 * The model writes the decimal rendering out and proves that the number can be
 * read back from the path, so distinct rows always get distinct images.
 */
module ImagePaths {
  import opened Wrappers

  const Folder := "image/"
  const Extension := ".jpg"

  predicate IsDigit(c: char)
  {
    '0' <= c <= '9'
  }

  /** Python's `str(n)` for a natural number: decimal digits, no leading zero. */
  function Decimal(n: nat): (s: string)
    ensures |s| > 0
    ensures forall i :: 0 <= i < |s| ==> IsDigit(s[i])
    ensures |s| == 1 || s[0] != '0'
    decreases n
  {
    if n < 10 then [('0' as int + n) as char]
    else Decimal(n / 10) + [('0' as int + n % 10) as char]
  }

  /** The value of a string of decimal digits. */
  function DigitsValue(s: string): nat
    requires forall i :: 0 <= i < |s| ==> IsDigit(s[i])
  {
    if s == [] then 0
    else
      assert IsDigit(s[|s| - 1]);
      DigitsValue(s[..|s| - 1]) * 10 + (s[|s| - 1] as int - '0' as int)
  }

  /** The image path of the row at 0-based position `index`. */
  function ImagePath(index: nat): (p: string)
    ensures |p| > |Folder| + |Extension|
    ensures p[..|Folder|] == Folder && p[|p| - |Extension|..] == Extension
  {
    Folder + Decimal(index + 1) + Extension
  }

  /** Reads the image number back out of a path of the form `image/<digits>.jpg`. */
  function ImageNumber(p: string): Option<nat>
  {
    if |p| > |Folder| + |Extension| && p[..|Folder|] == Folder && p[|p| - |Extension|..] == Extension
       && forall i :: |Folder| <= i < |p| - |Extension| ==> IsDigit(p[i])
    then
      var digits := p[|Folder|..|p| - |Extension|];
      assert forall i :: 0 <= i < |digits| ==> IsDigit(digits[i]) by {
        forall i | 0 <= i < |digits| ensures IsDigit(digits[i]) {
          assert digits[i] == p[|Folder| + i];
        }
      }
      Some(DigitsValue(digits))
    else None
  }

  lemma {:induction false} DecimalRoundTrip(n: nat)
    ensures DigitsValue(Decimal(n)) == n
    decreases n
  {
    if n >= 10 {
      var s := Decimal(n);
      assert s[..|s| - 1] == Decimal(n / 10);
      DecimalRoundTrip(n / 10);
    }
  }

  /** The row at 0-based position `index` is paired with image number `index + 1`. */
  lemma ImagePathNumber(index: nat)
    ensures ImageNumber(ImagePath(index)) == Some(index + 1)
  {
    var p := ImagePath(index);
    var digits := Decimal(index + 1);
    assert p == Folder + digits + Extension;
    assert p[|Folder|..|p| - |Extension|] == digits;
    forall i | |Folder| <= i < |p| - |Extension| ensures IsDigit(p[i]) {
      assert p[i] == digits[i - |Folder|];
    }
    DecimalRoundTrip(index + 1);
  }

  /** Distinct rows are never paired with the same image file. */
  lemma ImagePathInjective(i: nat, j: nat)
    requires i != j
    ensures ImagePath(i) != ImagePath(j)
  {
    ImagePathNumber(i);
    ImagePathNumber(j);
  }
}
