/**
 * Model of Pixel/Pixel.cpp: a pixel holds a ceiling (`maxValue`) and the
 * three channels `red`, `green`, `blue`, all stored as C++ `unsigned short`.
 * Its private setters reject out-of-range input and keep the old state
 * instead of clamping.
 *
 * Two views are given: `PixelValue` is the value a `std::vector<Pixel>`
 * holds (copies, compared structurally), and `class Pixel` is the object
 * whose setters and assignment operator overwrite its fields in place.
 */
module Pixels {

  /** One more than the largest C++ `unsigned short`. */
  const UShortModulus: nat := 65536

  /** The largest ceiling a pixel accepts (Pixel/Pixel.cpp:37). */
  const MaxCeiling: nat := 255

  /** Storing an `int` into an `unsigned short` keeps it modulo 2^16. */
  function ToUShort(x: int): (r: nat)
    ensures r < UShortModulus
    ensures 0 <= x < UShortModulus ==> r == x
    ensures UShortModulus <= x < 2 * UShortModulus ==> r == x - UShortModulus
  {
    x % UShortModulus
  }

  /** The getters return `short`: an `unsigned short` above 32767 reads negative. */
  function ToShort(x: nat): (r: int)
    requires x < UShortModulus
    ensures -32768 <= r < 32768
    ensures r % UShortModulus == x
    ensures x < 32768 ==> r == x
  {
    if x < 32768 then x else x - UShortModulus
  }

  /** The four fields of a pixel, as copied into and out of a vector. */
  datatype PixelValue = PixelValue(maxValue: nat, red: nat, green: nat, blue: nat)
  {
    /** A pixel built through the validating constructor: ceiling in [1,255], channels under it. */
    predicate Valid()
    {
      1 <= maxValue <= MaxCeiling && red <= maxValue && green <= maxValue && blue <= maxValue
    }
  }

  /** The pixel made by `Pixel()` (Pixel/Pixel.cpp:3). */
  const DefaultPixel: PixelValue := PixelValue(0, 0, 0, 0)

  /** The guard of `setMaxValue` (Pixel/Pixel.cpp:37). */
  predicate AcceptsMaxValue(value: nat)
  {
    1 <= value <= MaxCeiling
  }

  /** The guard of `setValues`: every channel at most the current ceiling. */
  predicate AcceptsValues(maxValue: nat, red: nat, green: nat, blue: nat)
  {
    red <= maxValue && green <= maxValue && blue <= maxValue
  }

  /** A C++ `unsigned short`. */
  type UShort = x: nat | x < UShortModulus

  /** A pixel object; its fields are C++ `unsigned short`s. */
  class Pixel {
    var maxValue: UShort
    var red: UShort
    var green: UShort
    var blue: UShort

    /** The pixel's value: what `operator==` compares and `operator=` copies. */
    function Value(): PixelValue
      reads this
    {
      PixelValue(maxValue, red, green, blue)
    }

    /** `Pixel()`: all four fields zero, so every channel is within the ceiling 0. */
    constructor Default()
      ensures Value() == DefaultPixel
      ensures AcceptsValues(maxValue, red, green, blue)
    {
      maxValue, red, green, blue := 0, 0, 0, 0;
    }

    /**
     * `Pixel(maxValue, red, green, blue)`: sets the ceiling first, then
     * validates the channels against it.  A rejected ceiling or channel
     * triple leaves those fields as the C++ object leaves them:
     * indeterminate `unsigned short`s.
     */
    constructor (maxValue: UShort, red: UShort, green: UShort, blue: UShort)
      ensures AcceptsMaxValue(maxValue) ==> this.maxValue == maxValue
      ensures AcceptsMaxValue(maxValue) && AcceptsValues(maxValue, red, green, blue) ==>
        Value() == PixelValue(maxValue, red, green, blue) && Value().Valid()
      ensures AcceptsMaxValue(maxValue) && AcceptsValues(maxValue, red, green, blue) ==>
        GetMaxValue() == maxValue && GetRValue() == red && GetGValue() == green && GetBValue() == blue
    {
      new;
      var _ := SetMaxValue(maxValue);
      var _ := SetValues(red, green, blue);
    }

    /** `operator=`: afterwards `this` equals `other` field for field. */
    method Assign(other: Pixel)
      modifies this
      ensures Value() == other.Value()
      ensures old(other.Value()) == other.Value()
    {
      if NotEquals(other) {
        maxValue := other.maxValue;
        red := other.red;
        green := other.green;
        blue := other.blue;
      }
    }

    /** `operator==`: structural equality over all four fields. */
    function Equals(other: Pixel): (same: bool)
      reads this, other
      ensures same <==> Value() == other.Value()
    {
      maxValue == other.maxValue && red == other.red && green == other.green && blue == other.blue
    }

    /** `operator!=`: exactly the negation of `operator==`. */
    function NotEquals(other: Pixel): (differ: bool)
      reads this, other
      ensures differ <==> Value() != other.Value()
    {
      !Equals(other)
    }

    /** `setMaxValue`: stores the value only when it lies in [1,255]; reports whether it did. */
    method SetMaxValue(value: UShort) returns (accepted: bool)
      modifies this
      ensures accepted <==> AcceptsMaxValue(value)
      ensures maxValue == if accepted then value else old(maxValue)
      ensures red == old(red) && green == old(green) && blue == old(blue)
    {
      accepted := 1 <= value && value <= MaxCeiling;
      if accepted {
        maxValue := value;
      }
    }

    /** `setValues`: all three channels change, or none does. */
    method SetValues(red: UShort, green: UShort, blue: UShort) returns (accepted: bool)
      modifies this
      ensures accepted <==> AcceptsValues(old(maxValue), red, green, blue)
      ensures maxValue == old(maxValue)
      ensures accepted ==> this.red == red && this.green == green && this.blue == blue
      ensures !accepted ==> Value() == old(Value())
    {
      accepted := red <= maxValue && green <= maxValue && blue <= maxValue;
      if accepted {
        this.red, this.green, this.blue := red, green, blue;
      }
    }

    /** `getMaxValue`: the ceiling, read as a `short`. */
    function GetMaxValue(): (v: int)
      reads this
      ensures -32768 <= v < 32768 && v % UShortModulus == maxValue
      ensures maxValue < 32768 ==> v == maxValue
    {
      ToShort(maxValue)
    }

    /** `getRValue`: the red channel, read as a `short`. */
    function GetRValue(): (v: int)
      reads this
      ensures -32768 <= v < 32768 && v % UShortModulus == red
      ensures red < 32768 ==> v == red
    {
      ToShort(red)
    }

    /** `getGValue`: the green channel, read as a `short`. */
    function GetGValue(): (v: int)
      reads this
      ensures -32768 <= v < 32768 && v % UShortModulus == green
      ensures green < 32768 ==> v == green
    {
      ToShort(green)
    }

    /** `getBValue`: the blue channel, read as a `short`. */
    function GetBValue(): (v: int)
      reads this
      ensures -32768 <= v < 32768 && v % UShortModulus == blue
      ensures blue < 32768 ==> v == blue
    {
      ToShort(blue)
    }
  }
}
