/**
 * Name rules: byte-level case and ASCII tests, visibility of Go identifiers,
 * the accessor (getter) name and the short receiver alias of a struct.
 *
 * Identifiers are sequences of Unicode code points. Go indexes a string by
 * byte, so `name[0]` is the first byte of the UTF-8 encoding of the first code
 * point; `LeadByte` computes it. The rune case functions cover ASCII letters
 * only.
 */
module Names {
  import opened Basics

  // ---------------------------------------------------------------------------
  // Byte predicates

  /** An ASCII capital letter byte. */
  function IsUpper(c: Byte): (r: bool)
    ensures r ==> IsASCII(c) && !IsLower(c)
    ensures r <==> IsUpperRune(c as int as char)
  {
    0x41 <= c && c <= 0x5A
  }

  /** An ASCII small letter byte. */
  function IsLower(c: Byte): (r: bool)
    ensures r ==> IsASCII(c)
    ensures r <==> IsLowerRune(c as int as char)
  {
    0x61 <= c && c <= 0x7A
  }

  /** The top bit of the byte is clear. */
  function IsASCII(c: Byte): (r: bool)
    ensures r <==> c < 0x80
  {
    (c as bv8) & 0x80 == 0
  }

  // ---------------------------------------------------------------------------
  // Rune case functions (ASCII letters only)

  predicate IsUpperRune(c: char) { 'A' <= c <= 'Z' }

  predicate IsLowerRune(c: char) { 'a' <= c <= 'z' }

  predicate IsLetter(c: char) { IsUpperRune(c) || IsLowerRune(c) }

  function ToUpperRune(c: char): (r: char)
    ensures !IsLowerRune(r)
    ensures IsUpperRune(r) <==> IsLetter(c)
    ensures !IsLetter(c) ==> r == c
    ensures IsLowerRune(c) ==> r as int == c as int - 0x20
    ensures IsUpperRune(c) ==> r == c
  {
    if IsLowerRune(c) then (c as int - 0x20) as char else c
  }

  function ToLowerRune(c: char): (r: char)
    ensures !IsUpperRune(r)
    ensures IsLowerRune(r) <==> IsLetter(c)
    ensures IsUpperRune(c) ==> ToUpperRune(r) == c
    ensures !IsLetter(c) ==> r == c
    ensures IsUpperRune(c) ==> r as int == c as int + 0x20
    ensures IsLowerRune(c) ==> r == c
  {
    if IsUpperRune(c) then (c as int + 0x20) as char else c
  }

  /** `strings.ToLower`, restricted to ASCII letters. */
  function LowerString(s: string): (r: string)
    ensures |r| == |s|
    ensures forall i :: 0 <= i < |r| ==> !IsUpperRune(r[i]) && (IsLetter(r[i]) <==> IsLetter(s[i]))
    ensures forall i :: 0 <= i < |s| ==>
      (IsUpperRune(s[i]) ==> r[i] as int == s[i] as int + 0x20) && (!IsUpperRune(s[i]) ==> r[i] == s[i])
  {
    seq(|s|, i requires 0 <= i < |s| => ToLowerRune(s[i]))
  }

  /** Lower-casing a lower-cased string changes nothing. */
  lemma LowerStringIdempotent(s: string)
    ensures LowerString(LowerString(s)) == LowerString(s)
  {
  }

  /** The first byte of the UTF-8 encoding of `c`. */
  function LeadByte(c: char): (b: Byte)
    ensures c as int < 0x80 ==> b as int == c as int
    ensures c as int >= 0x80 ==> b >= 0xC0
  {
    var cp := c as int;
    if cp < 0x80 then cp as Byte
    else if cp < 0x800 then (0xC0 + cp / 0x40) as Byte
    else if cp < 0x1_0000 then (0xE0 + cp / 0x1000) as Byte
    else (0xF0 + cp / 0x4_0000) as Byte
  }

  // ---------------------------------------------------------------------------
  // Visibility

  /** Exported: the first byte is an ASCII capital. Go panics on the empty name. */
  function IsPublic(name: string): (r: bool)
    requires name != []
    ensures r <==> IsUpperRune(name[0])
  {
    var c := LeadByte(name[0]);
    IsASCII(c) && IsUpper(c)
  }

  function IsPrivate(name: string): (r: bool)
    requires name != []
    ensures r <==> !IsUpperRune(name[0])
    ensures name[0] as int >= 0x80 ==> r
  {
    !IsPublic(name)
  }

  /** Names no accessor can be generated for: empty, or not starting with an ASCII byte. */
  function ShouldIgnore(name: string): (r: bool)
    ensures r <==> name == [] || name[0] as int >= 0x80
  {
    name == [] || !IsASCII(LeadByte(name[0]))
  }

  // ---------------------------------------------------------------------------
  // Getter names

  /** The accessor name: the first rune upper-cased, the rest unchanged. */
  function GetterNameOf(name: string): string
    requires name != []
  {
    [ToUpperRune(name[0])] + name[1..]
  }

  /**
   * The getter name keeps the length and every rune after the first; it is
   * exported exactly when the name starts with a letter, lower-casing its first
   * rune gives the name back, and a name starting with a non-letter is its own
   * getter name.
   */
  lemma GetterNameFacts(name: string)
    requires name != []
    ensures |GetterNameOf(name)| == |name| && GetterNameOf(name)[1..] == name[1..]
    ensures IsPublic(GetterNameOf(name)) <==> IsLetter(name[0])
    ensures IsLowerRune(name[0]) ==> ToLowerRune(GetterNameOf(name)[0]) == name[0]
    ensures !IsLetter(name[0]) ==> GetterNameOf(name) == name
  {
  }

  /** `toGetterName`: copies the runes of `name`, upper-casing the first. */
  method RawGetterName(name: string) returns (r: string)
    requires name != []
    ensures r == GetterNameOf(name)
    ensures |r| == |name| && r[0] == ToUpperRune(name[0])
    ensures forall i :: 1 <= i < |name| ==> r[i] == name[i]
  {
    r := [ToUpperRune(name[0])];
    for i := 1 to |name|
      invariant r == [ToUpperRune(name[0])] + name[1..i]
    {
      r := r + [name[i]];
    }
  }

  /** `ToGetterName`: rejects empty names and names whose first byte is non-ASCII or a capital. */
  method ToGetterName(name: string) returns (r: Result<string>)
    ensures name == [] ==> r == Err(EmptyName)
    ensures name != [] && name[0] as int >= 0x80 ==> r == Err(NotAsciiStart(name))
    ensures name != [] && IsUpperRune(name[0]) ==> r == Err(NotLowerStart(name))
    ensures r.Ok? <==> name != [] && name[0] as int < 0x80 && !IsUpperRune(name[0])
    ensures r.Ok? ==> r.value == GetterNameOf(name)
  {
    if name == [] {
      return Err(EmptyName);
    }
    var c := LeadByte(name[0]);
    if !IsASCII(c) {
      return Err(NotAsciiStart(name));
    }
    if IsUpper(c) {
      return Err(NotLowerStart(name));
    }
    var g := RawGetterName(name);
    return Ok(g);
  }

  lemma GetterNameExamples()
    ensures GetterNameOf("name") == "Name"
    ensures GetterNameOf("_x") == "_x"
    ensures GetterNameOf("y") == "Y"
  {
  }

  // ---------------------------------------------------------------------------
  // Short receiver names

  /** The initial contributed by one rune: itself lower-cased if it is a capital. */
  function InitialOf(c: char): string
  {
    if IsUpperRune(c) then [ToLowerRune(c)] else []
  }

  /** The upper-case letters of `s`, lower-cased, in order. */
  function Initials(s: string): string
  {
    if s == [] then [] else InitialOf(s[0]) + Initials(s[1..])
  }

  /** The first letter of `s`, if any. */
  function FirstLetter(s: string): (r: Option<char>)
    ensures r.Some? ==> IsLetter(r.value)
  {
    if s == [] then None
    else if IsLetter(s[0]) then Some(s[0])
    else FirstLetter(s[1..])
  }

  /** What `GetShortName` returns: the initials, else the first letter, else an error. */
  function ShortNameOf(name: string): (r: Result<string>)
    ensures name == [] ==> r == Err(EmptyName)
    ensures r.Ok? ==> r.value != []
    ensures r.Ok? ==> forall i :: 0 <= i < |r.value| ==> IsLowerRune(r.value[i])
  {
    InitialsAreLower(name);
    if name == [] then Err(EmptyName)
    else if Initials(name) != [] then Ok(Initials(name))
    else match FirstLetter(name)
      case Some(c) => Ok([ToLowerRune(c)])
      case None => Err(InvalidName(name))
  }

  lemma {:induction false} InitialsAreLower(s: string)
    ensures |Initials(s)| <= |s|
    ensures forall i :: 0 <= i < |Initials(s)| ==> IsLowerRune(Initials(s)[i])
  {
    if s != [] {
      InitialsAreLower(s[1..]);
    }
  }

  /** The initials are empty exactly when `s` has no capital. */
  lemma {:induction false} InitialsEmpty(s: string)
    ensures Initials(s) == [] <==> forall i :: 0 <= i < |s| ==> !IsUpperRune(s[i])
  {
    if s != [] {
      var p := s[1..];
      InitialsEmpty(p);
      assert forall i :: 1 <= i < |s| ==> s[i] == p[i - 1];
    }
  }

  /** Initials distribute over concatenation: the letters are taken in order. */
  lemma {:induction false} InitialsConcat(a: string, b: string)
    ensures Initials(a + b) == Initials(a) + Initials(b)
  {
    if a == [] {
      assert a + b == b;
    } else {
      assert (a + b)[0] == a[0];
      assert (a + b)[1..] == a[1..] + b;
      InitialsConcat(a[1..], b);
      calc {
        Initials(a + b);
        InitialOf(a[0]) + Initials(a[1..] + b);
        InitialOf(a[0]) + (Initials(a[1..]) + Initials(b));
      }
    }
  }

  lemma {:induction false} FirstLetterSpec(s: string)
    ensures FirstLetter(s).None? <==> forall i :: 0 <= i < |s| ==> !IsLetter(s[i])
    ensures FirstLetter(s).Some? ==>
      exists i :: 0 <= i < |s| && s[i] == FirstLetter(s).value && IsLetter(s[i]) &&
        forall j :: 0 <= j < i ==> !IsLetter(s[j])
  {
    if s != [] && !IsLetter(s[0]) {
      FirstLetterSpec(s[1..]);
      if FirstLetter(s).Some? {
        var i :| 0 <= i < |s[1..]| && s[1..][i] == FirstLetter(s).value && IsLetter(s[1..][i]) &&
          forall j :: 0 <= j < i ==> !IsLetter(s[1..][j]);
        assert s[i + 1] == FirstLetter(s).value && forall j :: 0 <= j < i + 1 ==> !IsLetter(s[j]);
      } else {
        forall i | 1 <= i < |s| ensures !IsLetter(s[i]) {
          assert s[i] == s[1..][i - 1];
        }
      }
    } else if s != [] {
      assert s[0] == FirstLetter(s).value;
    }
  }

  /** The three outcomes of `GetShortName` on a non-empty name. */
  lemma ShortNameCases(name: string)
    requires name != []
    ensures (exists i :: 0 <= i < |name| && IsUpperRune(name[i])) ==> ShortNameOf(name) == Ok(Initials(name))
    ensures (forall i :: 0 <= i < |name| ==> !IsUpperRune(name[i])) && (exists i :: 0 <= i < |name| && IsLetter(name[i])) ==>
      ShortNameOf(name).Ok? && |ShortNameOf(name).value| == 1 &&
      exists i :: 0 <= i < |name| && IsLowerRune(name[i]) && ShortNameOf(name).value == [name[i]] &&
        forall j :: 0 <= j < i ==> !IsLetter(name[j])
    ensures (forall i :: 0 <= i < |name| ==> !IsLetter(name[i])) ==> ShortNameOf(name) == Err(InvalidName(name))
  {
    InitialsEmpty(name);
    FirstLetterSpec(name);
  }

  lemma ShortNameOfCamelCase()
    ensures ShortNameOf("UserAccount") == Ok("ua")
  {
    assert Initials("UserAccount") == "ua";
  }

  lemma ShortNameOfLowerCase()
    ensures ShortNameOf("user") == Ok("u")
    ensures ShortNameOf("") == Err(EmptyName)
    ensures ShortNameOf("_1") == Err(InvalidName("_1"))
  {
    InitialsEmpty("user");
    InitialsEmpty("_1");
    assert "_1"[1..] == "1";
  }

  /** `GetShortName`: collects the lower-cased capitals; if none, the first letter lower-cased. */
  method GetShortName(name: string) returns (r: Result<string>)
    ensures r == ShortNameOf(name)
  {
    if name == [] {
      return Err(EmptyName);
    }
    var short: string := [];
    for i := 0 to |name|
      invariant short == Initials(name[..i])
    {
      assert name[..i + 1] == name[..i] + [name[i]];
      InitialsConcat(name[..i], [name[i]]);
      if IsUpperRune(name[i]) {
        short := short + [ToLowerRune(name[i])];
      }
    }
    assert name[..|name|] == name;
    if |short| == 0 {
      for i := 0 to |name|
        invariant short == []
        invariant FirstLetter(name) == FirstLetter(name[i..])
      {
        assert name[i..][1..] == name[i + 1..];
        if IsLetter(name[i]) {
          short := [ToLowerRune(name[i])];
          break;
        }
      }
    }
    if |short| == 0 {
      return Err(InvalidName(name));
    }
    return Ok(short);
  }
}
