/**
 * Category colours (constants.ts): a fixed colour for the built-in
 * categories, otherwise a palette entry picked by a 32-bit string hash over
 * the category's UTF-16 code units.
 */
module Colors {
  import opened Types

  /** The categories a new installation starts with. */
  const DefaultCategories: seq<string> :=
    ["Food", "Transport", "Housing", "Utilities", "Entertainment", "Shopping", "Health", "Other"]

  const FixedColors: map<string, string> := map[
    "Food" := "#f59e0b",
    "Transport" := "#3b82f6",
    "Housing" := "#6366f1",
    "Utilities" := "#0ea5e9",
    "Entertainment" := "#ec4899",
    "Shopping" := "#8b5cf6",
    "Health" := "#10b981",
    "Income" := "#22c55e",
    "Other" := "#64748b"]

  const Palette: seq<string> :=
    ["#ef4444", "#f97316", "#84cc16", "#06b6d4", "#8b5cf6",
     "#d946ef", "#f43f5e", "#14b8a6", "#6366f1"]

  const TwoTo32: int := 0x1_0000_0000
  const TwoTo31: int := 0x8000_0000

  /** ECMA-262 ToInt32 on an integer: wrap into the signed 32-bit range. */
  function ToInt32(x: int): (r: int)
    ensures -TwoTo31 <= r < TwoTo31
    ensures Congruent(r, x)
  {
    var m := x % TwoTo32;
    if m >= TwoTo31 then m - TwoTo32 else m
  }

  /** Equal modulo 2^32. */
  predicate Congruent(a: int, b: int)
  {
    (a - b) % TwoTo32 == 0
  }

  /** The UTF-16 encoding of one character: one code unit, or a surrogate pair above U+FFFF. */
  function Utf16(c: char): (units: seq<int>)
    ensures 1 <= |units| <= 2
    ensures forall i :: 0 <= i < |units| ==> 0 <= units[i] < 0x10000
    ensures (c as int) < 0x10000 ==> units == [c as int]
  {
    var v := c as int;
    if v < 0x10000 then [v]
    else [0xD800 + (v - 0x10000) / 0x400, 0xDC00 + (v - 0x10000) % 0x400]
  }

  /** The code units `charCodeAt` walks through. */
  function CodeUnits(s: string): (units: seq<int>)
    ensures |s| <= |units| <= 2 * |s|
  {
    if s == [] then [] else Utf16(s[0]) + CodeUnits(s[1..])
  }

  /** One step of the hash: `code + ((hash << 5) - hash)` on JavaScript numbers. */
  function Step(hash: int, code: int): int
  {
    code + (ToInt32(ToInt32(hash) * 32) - hash)
  }

  /** The hash after the loop has consumed `units`, starting from 0. */
  function HashOf(units: seq<int>): int
  {
    if units == [] then 0 else Step(HashOf(units[..|units| - 1]), units[|units| - 1])
  }

  /** The polynomial string hash h = 31·h + code, without any wrap-around. */
  function Poly(units: seq<int>): int
  {
    if units == [] then 0 else 31 * Poly(units[..|units| - 1]) + units[|units| - 1]
  }

  /** A palette slot for a hash: `Math.abs(hash) % PALETTE.length`. */
  function PaletteIndex(hash: int): (i: nat)
    ensures i < |Palette|
    ensures hash == 0 ==> i == 0
  {
    (if hash < 0 then -hash else hash) % |Palette|
  }

  /**
   * getCategoryColor: a category with a fixed colour gets it; any other is
   * hashed code unit by code unit and gets the palette entry at the hash's
   * magnitude modulo the palette size. The result is always a colour of one
   * of the two tables.
   */
  method GetCategoryColor(category: string) returns (color: string)
    ensures category in FixedColors ==> color == FixedColors[category]
    ensures category !in FixedColors ==> color == Palette[PaletteIndex(HashOf(CodeUnits(category)))]
    ensures color in FixedColors.Values || color in Palette
  {
    if category in FixedColors {
      return FixedColors[category];
    }
    var units := CodeUnits(category);
    var hash := 0;
    var i := 0;
    while i < |units|
      invariant 0 <= i <= |units|
      invariant hash == HashOf(units[..i])
    {
      assert units[..i + 1][..i] == units[..i];
      hash := Step(hash, units[i]);
      i := i + 1;
    }
    assert units[..i] == units;
    color := Palette[PaletteIndex(hash)];
  }

  /** One hash step agrees, modulo 2^32, with one step of the polynomial hash. */
  lemma StepCongruent(h: int, p: int, code: int)
    requires Congruent(h, p)
    ensures Congruent(Step(h, code), 31 * p + code)
  {
    var a := ToInt32(h);
    var b := ToInt32(a * 32);
    assert Step(h, code) == code + (b - h);
    hide ToInt32;
    hide Step;
    var k1 := (a - h) / TwoTo32;
    var k2 := (b - 32 * a) / TwoTo32;
    var k3 := (h - p) / TwoTo32;
    assert a - h == k1 * TwoTo32;
    assert b - 32 * a == k2 * TwoTo32;
    assert h - p == k3 * TwoTo32;
    assert Step(h, code) - (31 * p + code) == (k2 + 32 * k1 + 31 * k3) * TwoTo32;
  }

  /**
   * The wrapped shifts never change the hash modulo 2^32: it is the
   * polynomial hash of the code units, taken modulo 2^32.
   */
  lemma {:induction false} HashIsPolynomial(units: seq<int>)
    ensures Congruent(HashOf(units), Poly(units))
  {
    if units != [] {
      var init := units[..|units| - 1];
      HashIsPolynomial(init);
      StepCongruent(HashOf(init), Poly(init), units[|units| - 1]);
    }
  }

  /** Every default category, and the Income label, has a fixed colour. */
  lemma DefaultsHaveFixedColors()
    ensures forall c :: c in DefaultCategories ==> c in FixedColors
    ensures IncomeCategory in FixedColors
    ensures |Palette| == 9
  {
  }

  /** The empty category hashes to 0 and takes the first palette entry. */
  lemma EmptyCategoryColor()
    ensures CodeUnits("") == [] && HashOf(CodeUnits("")) == 0
    ensures "" !in FixedColors
    ensures Palette[PaletteIndex(HashOf(CodeUnits("")))] == Palette[0]
  {
  }

  // ------------------------------------------------ lookup as the source writes it

  /**
   * The keys every plain object inherits from Object.prototype. Indexing the
   * colour table by one of them finds an inherited method (or, for
   * `__proto__`, the prototype itself), which is truthy.
   */
  const InheritedKeys: set<string> := {
    "constructor", "hasOwnProperty", "isPrototypeOf", "propertyIsEnumerable",
    "toLocaleString", "toString", "valueOf", "__proto__",
    "__defineGetter__", "__defineSetter__", "__lookupGetter__", "__lookupSetter__"}

  /** What `FIXED_COLORS[category]` yields before the hash is consulted. */
  datatype Lookup = Colour(hex: string) | InheritedMember(key: string)

  /**
   * getCategoryColor as written: the truthiness test on `FIXED_COLORS[category]`
   * also succeeds for inherited keys, and the inherited member is returned
   * in place of a colour.
   */
  function LookupAsWritten(category: string): (r: Lookup)
    ensures r.InheritedMember? <==> category !in FixedColors && category in InheritedKeys
  {
    if category in FixedColors then Colour(FixedColors[category])
    else if category in InheritedKeys then InheritedMember(category)
    else Colour(Palette[PaletteIndex(HashOf(CodeUnits(category)))])
  }

  /**
   * A category named "constructor", which the settings screen accepts like
   * any other name, gets no colour from the lookup as written, while the
   * own-key lookup of GetCategoryColor gives it a palette colour.
   */
  lemma ConstructorGetsNoColour()
    ensures LookupAsWritten("constructor") == InheritedMember("constructor")
    ensures "constructor" !in FixedColors
  {
  }
}
