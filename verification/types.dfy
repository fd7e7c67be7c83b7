/** The `DataTypes` enumeration: the nine memory tags the bridge reads and
    writes, the one-letter code each contributes to `d<code>` / `e<code>`
    console commands, and the three classifications the codec branches on. */
module MemoryTypes {
  import opened Wrappers

  datatype Tag = Byte | Byte2 | Byte4 | Byte8 | Dword | Float | Double | Ascii | Unicode

  /** The letter the console command uses for the tag (`DataTypes[name]`). */
  function Code(t: Tag): char {
    match t
    case Byte => 'b'
    case Byte2 => 'w'
    case Byte4 => 'd'
    case Byte8 => 'q'
    case Dword => 'p'
    case Float => 'f'
    case Double => 'D'
    case Ascii => 'a'
    case Unicode => 'u'
  }

  /** The enumeration key, which is also the accessor's property name. */
  function Name(t: Tag): string {
    match t
    case Byte => "byte"
    case Byte2 => "byte2"
    case Byte4 => "byte4"
    case Byte8 => "byte8"
    case Dword => "dword"
    case Float => "float"
    case Double => "double"
    case Ascii => "ascii"
    case Unicode => "unicode"
  }

  /** Decoding a command letter back to its tag. */
  function FromCode(c: char): (r: Option<Tag>)
    ensures r.Some? ==> Code(r.value) == c
    ensures (exists t :: Code(t) == c) ==> r.Some?
  {
    match c
    case 'b' => Some(Byte)
    case 'w' => Some(Byte2)
    case 'd' => Some(Byte4)
    case 'q' => Some(Byte8)
    case 'p' => Some(Dword)
    case 'f' => Some(Float)
    case 'D' => Some(Double)
    case 'a' => Some(Ascii)
    case 'u' => Some(Unicode)
    case _ => None
  }

  /** `DataTypes[key]` for a property name: the tag whose key it is, or
      `undefined` for every other name. */
  function FromName(key: string): (r: Option<Tag>)
    ensures r.Some? ==> Name(r.value) == key
    ensures (exists t :: Name(t) == key) ==> r.Some?
  {
    if key == "byte" then Some(Byte)
    else if key == "byte2" then Some(Byte2)
    else if key == "byte4" then Some(Byte4)
    else if key == "byte8" then Some(Byte8)
    else if key == "dword" then Some(Dword)
    else if key == "float" then Some(Float)
    else if key == "double" then Some(Double)
    else if key == "ascii" then Some(Ascii)
    else if key == "unicode" then Some(Unicode)
    else None
  }

  /** `isStringType`: membership of the code in `[unicode, ascii]`. */
  predicate IsStringType(t: Tag)
    ensures IsStringType(t) <==> t == Ascii || t == Unicode
  {
    Code(t) in ['u', 'a']
  }

  /** `isNumericType`: the seven tags that are not strings. */
  predicate IsNumericType(t: Tag)
    ensures IsNumericType(t) <==> t in {Byte, Byte2, Byte4, Byte8, Dword, Float, Double}
  {
    !IsStringType(t)
  }

  /** `isHexType`: every code outside `[double, float]`, the two string tags included. */
  predicate IsHexType(t: Tag)
    ensures !IsHexType(t) <==> t == Float || t == Double
  {
    Code(t) !in ['D', 'f']
  }

  /** The codes are pairwise distinct, so a command letter names one tag. */
  lemma CodeInjective(s: Tag, t: Tag)
    ensures Code(s) == Code(t) ==> s == t
  {
    assert FromCode(Code(s)) == Some(s);
  }

  /** Decoding the letter of a tag gives the tag back. */
  lemma FromCodeOfCode(t: Tag)
    ensures FromCode(Code(t)) == Some(t)
  {
  }

  lemma FromNameOfName(t: Tag)
    ensures FromName(Name(t)) == Some(t)
  {
  }

  /** The tags the codec renders and parses in hexadecimal as numbers. */
  lemma NumericHexTags(t: Tag)
    ensures IsNumericType(t) && IsHexType(t) <==> t in {Byte, Byte2, Byte4, Byte8, Dword}
  {
  }
}
