/** The camera-model override of the command line: a designation such as "MX5C" names the
    interlaced (M) or progressive (H) sensor, its model number and whether it is a colour
    sensor, and is folded into the 32-bit model code `ccdModel`. */
module CameraModel {
  /** The model-code bit set for an interlaced sensor (`SXCCD_INTERLEAVE`). */
  const INTERLEAVE: bv32 := 0x40
  /** The model-code bit set for a colour sensor (`SXCCD_COLOR`). */
  const COLOR: bv32 := 0x80
  /** The two flag bits the model-number rule keeps. */
  const FLAGS: bv32 := 0xC0
  /** The low bits that hold the model number. */
  const NUMBER: bv32 := 0x3F
  /** The bits above the low byte. */
  const HIGH: bv32 := 0xFFFF_FF00

  /** Character i of the designation; the string's terminator (a NUL) past its end. */
  function CharAt(s: string, i: nat): (c: char)
    ensures i < |s| ==> c == s[i]
    ensures |s| <= i ==> c == 0 as char
  {
    if i < |s| then s[i] else 0 as char
  }

  /** ASCII `toupper`: lower-case letters become upper case, every other character stays. */
  function Upper(c: char): (u: char)
    ensures 'a' <= c <= 'z' ==> u as int == c as int - 32
    ensures !('a' <= c <= 'z') ==> u == c
  {
    if 'a' <= c <= 'z' then (c as int - 32) as char else c
  }

  /** What a designation asks for, character by character: whether it is an SX designation at
      all (X second), whether the first character names the sensor type (H progressive, M
      interlaced), whether the third is a model number (5, 7 or 9) and which, and colour (C
      fourth). */
  datatype Request = Request(sx: bool, typed: bool, interlaced: bool, numbered: bool, number: bv32, color: bool)

  /** A third character the model-number rule accepts. */
  predicate ModelDigit(c: char)
  {
    c == '5' || c == '7' || c == '9'
  }

  /** The model number an accepted digit stands for. */
  function Digit(c: char): (n: bv32)
    requires ModelDigit(c)
    ensures n <= NUMBER && n as int == c as int - '0' as int
  {
    if c == '5' then 5 else if c == '7' then 7 else 9
  }

  /** Reads the four characters of a designation, upper-casing all but the digit. */
  function Parse(s: string): (q: Request)
    ensures q.sx <==> Upper(CharAt(s, 1)) == 'X'
    ensures q.typed <==> Upper(CharAt(s, 0)) == 'H' || Upper(CharAt(s, 0)) == 'M'
    ensures q.interlaced <==> Upper(CharAt(s, 0)) == 'M'
    ensures q.numbered <==> ModelDigit(CharAt(s, 2))
    ensures q.number <= NUMBER && (q.numbered ==> q.number == Digit(CharAt(s, 2)))
    ensures q.color <==> Upper(CharAt(s, 3)) == 'C'
  {
    var t := Upper(CharAt(s, 0));
    var d := CharAt(s, 2);
    Request(Upper(CharAt(s, 1)) == 'X',
            t == 'H' || t == 'M', t == 'M',
            ModelDigit(d), if ModelDigit(d) then Digit(d) else 0,
            Upper(CharAt(s, 3)) == 'C')
  }

  /** The four fields of a model code: its colour bit, its interlace bit, its model number
      and its bits above the low byte, each masked in place. */
  datatype Fields = Fields(color: bv32, interlace: bv32, number: bv32, high: bv32)

  function FieldsOf(m: bv32): Fields
  {
    Fields(m & COLOR, m & INTERLEAVE, m & NUMBER, m & HIGH)
  }

  /** A code is determined by its fields. */
  lemma FieldsDetermine(a: bv32, b: bv32)
    requires FieldsOf(a) == FieldsOf(b)
    ensures a == b
  {
  }

  /** `model | SXCCD_INTERLEAVE`: the interlace bit set, no other field changing. */
  function SetInterlace(model: bv32): (r: bv32)
    ensures FieldsOf(r) == FieldsOf(model).(interlace := INTERLEAVE)
  {
    model | INTERLEAVE
  }

  /** `model & ~SXCCD_INTERLEAVE`: the interlace bit cleared, no other field changing. */
  function ClearInterlace(model: bv32): (r: bv32)
    ensures FieldsOf(r) == FieldsOf(model).(interlace := 0)
  {
    ClearedInterlace(model);
    model & !INTERLEAVE
  }

  lemma ClearedInterlace(model: bv32)
    ensures FieldsOf(model & !INTERLEAVE) == FieldsOf(model).(interlace := 0)
  {
  }

  /** `model | SXCCD_COLOR`: the colour bit set, no other field changing. */
  function SetColor(model: bv32): (r: bv32)
    ensures FieldsOf(r) == FieldsOf(model).(color := COLOR)
  {
    model | COLOR
  }

  /** `model & ~SXCCD_COLOR`: the colour bit cleared, no other field changing. */
  function ClearColor(model: bv32): (r: bv32)
    ensures FieldsOf(r) == FieldsOf(model).(color := 0)
  {
    ClearedColor(model);
    model & !COLOR
  }

  lemma ClearedColor(model: bv32)
    ensures FieldsOf(model & !COLOR) == FieldsOf(model).(color := 0)
  {
  }

  /** `(model & 0xC0) | number`: the two flag bits kept, the model number replaced and the
      high bits cleared. */
  function SetNumber(model: bv32, number: bv32): (r: bv32)
    requires number <= NUMBER
    ensures FieldsOf(r) == FieldsOf(model).(number := number, high := 0)
  {
    (model & FLAGS) | number
  }

  /** The sensor-type step: H clears the interlace bit, M sets it, anything else (`typed`
      false) keeps the code. */
  function ApplyType(model: bv32, typed: bool, interlaced: bool): (r: bv32)
    ensures !typed ==> r == model
    ensures typed ==> FieldsOf(r) == FieldsOf(model).(interlace := if interlaced then INTERLEAVE else 0)
  {
    if !typed then model else if interlaced then SetInterlace(model) else ClearInterlace(model)
  }

  /** The model-number step: an accepted digit replaces the number and clears the high bits;
      any other character keeps the code. */
  function ApplyNumber(model: bv32, numbered: bool, number: bv32): (r: bv32)
    requires number <= NUMBER
    ensures !numbered ==> r == model
    ensures numbered ==> FieldsOf(r) == FieldsOf(model).(number := number, high := 0)
  {
    if numbered then SetNumber(model, number) else model
  }

  /** The colour step: C sets the colour bit, anything else clears it. */
  function ApplyColor(model: bv32, color: bool): (r: bv32)
    ensures FieldsOf(r) == FieldsOf(model).(color := if color then COLOR else 0)
  {
    if color then SetColor(model) else ClearColor(model)
  }

  /** The fields an SX request leaves: colour from the fourth character, the interlace bit
      from the type letter when there is one, and the number and high bits from an accepted
      digit when there is one. */
  function Requested(f: Fields, q: Request): Fields
  {
    Fields(if q.color then COLOR else 0,
           if !q.typed then f.interlace else if q.interlaced then INTERLEAVE else 0,
           if q.numbered then q.number else f.number,
           if q.numbered then 0 else f.high)
  }

  /** The model code after a parsed request: unchanged unless it is an SX designation;
      otherwise the type, the number and the colour steps are applied in turn. */
  function Apply(model: bv32, q: Request): (m: bv32)
    requires q.number <= NUMBER
    ensures !q.sx ==> m == model
    ensures q.sx ==> FieldsOf(m) == Requested(FieldsOf(model), q)
  {
    if q.sx then ApplyColor(ApplyNumber(ApplyType(model, q.typed, q.interlaced), q.numbered, q.number), q.color)
    else model
  }

  /** The model code after the override `s` (`OnCmdLineParsed`). */
  function Designate(model: bv32, s: string): (m: bv32)
    ensures Upper(CharAt(s, 1)) != 'X' ==> m == model
  {
    Apply(model, Parse(s))
  }

  /** Under an SX designation the colour bit follows the fourth character alone. */
  lemma DesignateColor(model: bv32, s: string)
    requires Upper(CharAt(s, 1)) == 'X'
    ensures Upper(CharAt(s, 3)) == 'C' ==> Designate(model, s) & COLOR == COLOR
    ensures Upper(CharAt(s, 3)) != 'C' ==> Designate(model, s) & COLOR == 0
  {
    assert FieldsOf(Designate(model, s)) == Requested(FieldsOf(model), Parse(s));
  }

  /** Under an SX designation H clears the interlace bit, M sets it, and any other first
      character keeps it. */
  lemma DesignateType(model: bv32, s: string)
    requires Upper(CharAt(s, 1)) == 'X'
    ensures Upper(CharAt(s, 0)) == 'H' ==> Designate(model, s) & INTERLEAVE == 0
    ensures Upper(CharAt(s, 0)) == 'M' ==> Designate(model, s) & INTERLEAVE == INTERLEAVE
    ensures Upper(CharAt(s, 0)) != 'H' && Upper(CharAt(s, 0)) != 'M' ==>
              Designate(model, s) & INTERLEAVE == model & INTERLEAVE
  {
    assert FieldsOf(Designate(model, s)) == Requested(FieldsOf(model), Parse(s));
  }

  /** Under an SX designation an accepted digit becomes the model number and clears the bits
      above the low byte. */
  lemma DesignateNumber(model: bv32, s: string)
    requires Upper(CharAt(s, 1)) == 'X' && ModelDigit(CharAt(s, 2))
    ensures Designate(model, s) & NUMBER == Digit(CharAt(s, 2))
    ensures Designate(model, s) & HIGH == 0
  {
    assert FieldsOf(Designate(model, s)) == Requested(FieldsOf(model), Parse(s));
  }

  /** Under an SX designation any other third character keeps the model number and the bits
      above the low byte. */
  lemma DesignateNoNumber(model: bv32, s: string)
    requires Upper(CharAt(s, 1)) == 'X' && !ModelDigit(CharAt(s, 2))
    ensures Designate(model, s) & NUMBER == model & NUMBER
    ensures Designate(model, s) & HIGH == model & HIGH
  {
    assert FieldsOf(Designate(model, s)) == Requested(FieldsOf(model), Parse(s));
  }

  /** A designation that names the sensor type and a model number fixes the whole code: the
      code it started from does not matter. */
  lemma FullDesignationIgnoresModel(a: bv32, b: bv32, s: string)
    requires Upper(CharAt(s, 1)) == 'X'
    requires Upper(CharAt(s, 0)) == 'H' || Upper(CharAt(s, 0)) == 'M'
    requires ModelDigit(CharAt(s, 2))
    ensures Designate(a, s) == Designate(b, s)
  {
    var q := Parse(s);
    assert FieldsOf(Designate(a, s)) == Requested(FieldsOf(a), q);
    assert FieldsOf(Designate(b, s)) == Requested(FieldsOf(b), q);
    FieldsDetermine(Designate(a, s), Designate(b, s));
  }

  /** Giving the same override twice is the same as giving it once. */
  lemma DesignateIdempotent(model: bv32, s: string)
    ensures Designate(Designate(model, s), s) == Designate(model, s)
  {
    var q := Parse(s);
    if q.sx {
      var m := Apply(model, q);
      assert FieldsOf(Apply(m, q)) == Requested(FieldsOf(m), q) == Requested(Requested(FieldsOf(model), q), q);
      FieldsDetermine(Apply(m, q), m);
    }
  }
}
