/**
 * `Size`: an immutable width/height pair used as an image cache dimension,
 * with Java value semantics: `equals`, `hashCode` and `toString`.
 */
module ImageSize {
  import opened Wrappers
  import opened JavaLang

  datatype Size = Size(width: JInt, height: JInt)

  /**
   * The argument of `equals`: `null`, an object whose runtime class is
   * exactly `Size`, an instance of a subclass of `Size`, or anything else.
   */
  datatype JavaObject = Null | SizeObject(size: Size) | SizeSubclassObject(size: Size) | OtherObject

  /**
   * `equals`: true only for an object of class `Size` itself with the same
   * width and height. A subclass instance is never equal, whatever its
   * fields, because the classes are compared.
   */
  function Equals(self: Size, o: JavaObject): (b: bool)
    ensures b <==> o.SizeObject? && o.size.width == self.width && o.size.height == self.height
  {
    match o
    case SizeObject(other) => self.width == other.width && self.height == other.height
    case _ => false
  }

  lemma EqualsReflexive(s: Size)
    ensures Equals(s, SizeObject(s))
  {
  }

  lemma EqualsSymmetric(a: Size, b: Size)
    ensures Equals(a, SizeObject(b)) == Equals(b, SizeObject(a))
  {
  }

  lemma EqualsTransitive(a: Size, b: Size, c: Size)
    requires Equals(a, SizeObject(b)) && Equals(b, SizeObject(c))
    ensures Equals(a, SizeObject(c))
  {
  }

  /** `hashCode`: `31 * width + height`, each step in wrapping `int` arithmetic. */
  function HashCode(s: Size): (h: JInt)
    ensures (h - (31 * s.width + s.height)) % TWO_32 == 0
  {
    var result: JInt := s.width;
    Wrap32(31 * result + s.height)
  }

  /** Equal sizes have equal hash codes: `hashCode` is consistent with `equals`. */
  lemma HashCodeConsistentWithEquals(a: Size, o: JavaObject)
    requires Equals(a, o)
    ensures HashCode(a) == HashCode(o.size)
  {
  }

  /** The hash code is the exact value whenever that fits an `int`. */
  lemma HashCodeExact(s: Size)
    requires MIN_INT <= 31 * s.width + s.height <= MAX_INT
    ensures HashCode(s) == 31 * s.width + s.height
  {
    Wrap32Unique(31 * s.width + s.height, HashCode(s));
  }

  /** Distinct sizes can share a hash code: 0 x 31 and 1 x 0 both hash to 31. */
  lemma HashCollision()
    ensures HashCode(Size(0, 31)) == HashCode(Size(1, 0)) == 31
    ensures !Equals(Size(0, 31), SizeObject(Size(1, 0)))
  {
    HashCodeExact(Size(0, 31));
    HashCodeExact(Size(1, 0));
  }

  /** `toString`: `String.format("%s, %s", width, height)`. */
  function ToString(s: Size): (r: string)
    ensures |r| >= 4
  {
    LongToString(s.width) + ", " + LongToString(s.height)
  }

  /** Reads back the text `toString` writes; `None` for anything else. */
  function ParseSize(t: string): (r: Option<Size>)
    ensures r.Some? ==> ',' in t
  {
    var i := IndexOf(t, ',');
    if i < 0 || i + 1 >= |t| || t[i + 1] != ' ' then None
    else
      match (ParseLong(t[..i]), ParseLong(t[i + 2..]))
      case (Some(w), Some(h)) =>
        if MIN_INT <= w <= MAX_INT && MIN_INT <= h <= MAX_INT then Some(Size(w, h)) else None
      case _ => None
  }

  /** `Long.toString` writes no comma. */
  lemma NoCommaInNumber(n: int)
    ensures ',' !in LongToString(n)
  {
    var s := LongToString(n);
    forall k | 0 <= k < |s| ensures s[k] != ',' {
      if k > 0 { assert IsDigit(s[k]); }
    }
  }

  /** `toString` loses nothing: both dimensions can be read back from it. */
  lemma ParseToString(s: Size)
    ensures ParseSize(ToString(s)) == Some(s)
  {
    var a, b := LongToString(s.width), LongToString(s.height);
    var t := ToString(s);
    NoCommaInNumber(s.width);
    assert t == a + [','] + (" " + b);
    IndexOfAfter(a, ',', " " + b);
    assert t[..|a|] == a;
    assert t[|a| + 2..] == b;
    ParseLongOfLongToString(s.width);
    ParseLongOfLongToString(s.height);
  }

  /** Two sizes print the same text exactly when they are equal. */
  lemma ToStringInjective(a: Size, b: Size)
    ensures ToString(a) == ToString(b) <==> Equals(a, SizeObject(b))
  {
    if ToString(a) == ToString(b) {
      ParseToString(a);
      ParseToString(b);
    }
  }
}
