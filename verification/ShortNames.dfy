/** The 8.3 name codec: text such as `readme.txt` to the 11 bytes of a directory entry and back. */
module ShortNames {
  import opened Bytes

  const SPACE: byte := 0x20
  const DOT: byte := 0x2E
  const QUESTION_MARK: byte := 0x3F

  /** The longest piece of input that the kernel's 32-byte buffers hold. */
  const MAX_COMPONENT := 31

  type ShortName = n: seq<byte> | |n| == 11 witness seq(11, i => 0x41)

  datatype Option<+T> = None | Some(value: T)

  function ToUpper(c: byte): byte {
    if 0x61 <= c <= 0x7A then c - 32 else c
  }

  predicate IsValidChar(c: byte) {
    0x41 <= c <= 0x5A || 0x30 <= c <= 0x39 || c == 0x5F || c == 0x2D
  }

  function Upper(s: seq<byte>): (u: seq<byte>)
    ensures |u| == |s|
  {
    seq(|s|, i requires 0 <= i < |s| => ToUpper(s[i]))
  }

  predicate AllValid(s: seq<byte>) {
    forall i | 0 <= i < |s| :: IsValidChar(s[i])
  }

  /** The position of the first dot, or the length when there is none. */
  function DotIndex(s: seq<byte>): (d: nat)
    ensures d <= |s|
    ensures d < |s| ==> s[d] == DOT
    ensures forall i | 0 <= i < d :: s[i] != DOT
  {
    if s == [] || s[0] == DOT then 0 else 1 + DotIndex(s[1..])
  }

  function Base(s: seq<byte>): seq<byte> {
    s[..DotIndex(s)]
  }

  function Extension(s: seq<byte>): seq<byte> {
    if DotIndex(s) < |s| then s[DotIndex(s) + 1..] else []
  }

  /** `s` filled up to `n` bytes with blanks. */
  function Pad(s: seq<byte>, n: nat): (r: seq<byte>)
    requires |s| <= n
    ensures |r| == n
  {
    s + seq(n - |s|, i => SPACE)
  }

  /** The names that have an 8.3 form: a non-empty base of at most 8 valid characters and, after at most one
      dot, an extension of at most 3. */
  predicate Encodable(s: seq<byte>) {
    var u := Upper(s);
    1 <= |Base(u)| <= 8 && |Extension(u)| <= 3 && AllValid(Base(u)) && AllValid(Extension(u))
  }

  function Encode(s: seq<byte>): Option<ShortName> {
    var u := Upper(s);
    if Encodable(s) then Some(Pad(Base(u), 8) + Pad(Extension(u), 3)) else None
  }

  function NonBlanks(s: seq<byte>): (r: seq<byte>)
    ensures |r| <= |s|
  {
    if s == [] then [] else (if s[0] != SPACE then [s[0]] else []) + NonBlanks(s[1..])
  }

  /** What fat12_dir_name_to_string shows for the 11 bytes of an entry. */
  function Display(raw: ShortName): (s: seq<byte>)
    ensures 1 <= |s| <= 12
  {
    var base, ext := NonBlanks(raw[..8]), NonBlanks(raw[8..]);
    var text := base + (if ext == [] then [] else [DOT] + ext);
    if text == [] then [QUESTION_MARK] else text
  }

  function WithoutTrailingDot(s: seq<byte>): seq<byte> {
    if s != [] && s[|s| - 1] == DOT then s[..|s| - 1] else s
  }

  function Cut(s: seq<byte>): seq<byte> {
    if |s| > MAX_COMPONENT then s[..MAX_COMPONENT] else s
  }

  // ---------------------------------------------------------------- properties of the codec

  lemma {:induction false} NonBlanksAppend(a: seq<byte>, c: byte)
    ensures NonBlanks(a + [c]) == NonBlanks(a) + (if c != SPACE then [c] else [])
  {
    if a != [] {
      NonBlanksAppend(a[1..], c);
      assert (a + [c])[1..] == a[1..] + [c];
    }
  }

  lemma {:induction false} NonBlanksOfBlanks(n: nat)
    ensures NonBlanks(seq(n, i => SPACE)) == []
  {
    if n > 0 {
      NonBlanksOfBlanks(n - 1);
      assert seq(n, i => SPACE)[1..] == seq(n - 1, i => SPACE);
    }
  }

  lemma {:induction false} NonBlanksOfPadded(s: seq<byte>, n: nat)
    requires |s| <= n && AllValid(s)
    ensures NonBlanks(Pad(s, n)) == s
  {
    if s == [] {
      NonBlanksOfBlanks(n);
      assert Pad(s, n) == seq(n, i => SPACE);
    } else {
      NonBlanksOfPadded(s[1..], n - 1);
      assert Pad(s, n)[1..] == Pad(s[1..], n - 1);
      assert IsValidChar(s[0]);
    }
  }

  lemma {:induction false} DotIndexOf(base: seq<byte>, rest: seq<byte>)
    requires AllValid(base) && (rest == [] || rest[0] == DOT)
    ensures DotIndex(base + rest) == |base|
  {
    if base != [] {
      DotIndexOf(base[1..], rest);
      assert (base + rest)[1..] == base[1..] + rest;
      assert IsValidChar(base[0]);
    } else {
      assert base + rest == rest;
    }
  }

  lemma UpperOfValid(s: seq<byte>)
    requires forall i | 0 <= i < |s| :: IsValidChar(s[i]) || s[i] == DOT
    ensures Upper(s) == s
  {
  }

  /** The parts that an encodable name is made of. */
  lemma EncodedParts(s: seq<byte>)
    requires Encode(s).Some?
    ensures var u := Upper(s);
            && Base(u) != [] && AllValid(Base(u)) && AllValid(Extension(u))
            && Encode(s).value[..8] == Pad(Base(u), 8) && Encode(s).value[8..] == Pad(Extension(u), 3)
            && NonBlanks(Encode(s).value[..8]) == Base(u) && NonBlanks(Encode(s).value[8..]) == Extension(u)
            && u == Base(u) + (if DotIndex(u) == |u| then [] else [DOT] + Extension(u))
  {
    var u := Upper(s);
    assert Encode(s).value[..8] == Pad(Base(u), 8) && Encode(s).value[8..] == Pad(Extension(u), 3);
    NonBlanksOfPadded(Base(u), 8);
    NonBlanksOfPadded(Extension(u), 3);
  }

  /** Decoding an encoded name gives the upper-cased input without a trailing dot. */
  lemma DecodeEncode(s: seq<byte>)
    requires Encode(s).Some?
    ensures Display(Encode(s).value) == WithoutTrailingDot(Upper(s))
  {
    hide DotIndex, Upper;
    EncodedParts(s);
    var u := Upper(s);
    var base, ext := Base(u), Extension(u);
    if ext != [] {
      assert u[|u| - 1] == ext[|ext| - 1] && IsValidChar(ext[|ext| - 1]);
    } else if DotIndex(u) == |u| {
      assert u == base && IsValidChar(base[|base| - 1]);
    } else {
      assert u == base + [DOT];
    }
  }

  /** Encoding what is displayed gives the same 11 bytes again. */
  lemma EncodeDecode(s: seq<byte>)
    requires Encode(s).Some?
    ensures Encode(Display(Encode(s).value)) == Encode(s)
  {
    EncodedParts(s);
    var u := Upper(s);
    var base, ext := Base(u), Extension(u);
    var raw := Encode(s).value;
    var rest := if ext == [] then [] else [DOT] + ext;
    assert base != [];
    assert Display(raw) == base + rest;
    UpperOfValid(base + rest);
    DotIndexOf(base, rest);
    assert Base(base + rest) == base && Extension(base + rest) == ext;
  }

  /** The characters of a name: capitals, digits, `_` and `-`. */
  predicate NameChar(c: char) {
    'A' <= c <= 'Z' || '0' <= c <= '9' || c == '_' || c == '-'
  }

  lemma EncodeBase(base: seq<byte>)
    requires 1 <= |base| <= 8 && AllValid(base)
    ensures Encode(base) == Encode(base + [0x2E]) == Some(Pad(base, 8) + Pad([], 3))
  {
    hide DotIndex;
    UpperOfValid(base);
    UpperOfValid(base + [DOT]);
    DotIndexOf(base, []);
    DotIndexOf(base, [DOT]);
    assert base + [] == base;
    assert Base(base) == base && Extension(base) == [] && Base(base + [DOT]) == base && Extension(base + [DOT]) == [];
  }

  /** An entry whose name is blank is shown as a question mark. */
  lemma BlankName(raw: ShortName)
    requires forall i | 0 <= i < 11 :: raw[i] == 0x20
    ensures Display(raw) == [0x3F]
  {
    assert raw[..8] == seq(8, i => SPACE) && raw[8..] == seq(3, i => SPACE);
    NonBlanksOfBlanks(8);
    NonBlanksOfBlanks(3);
  }

  /** A name of these characters fills its part of the eleven bytes up with blanks; the extension is behind the dot. */
  lemma EncodeParts(base: seq<byte>, ext: seq<byte>)
    requires 1 <= |base| <= 8 && |ext| <= 3
    requires forall i | 0 <= i < |base| :: NameChar(base[i] as char)
    requires forall i | 0 <= i < |ext| :: NameChar(ext[i] as char)
    ensures Encode(base + [0x2E] + ext).Some? && (ext == [] ==> Encode(base) == Encode(base + [0x2E]))
    ensures var raw := Encode(base + [0x2E] + ext).value;
            && (forall i | 0 <= i < 8 :: raw[i] == if i < |base| then base[i] else 0x20)
            && (forall i | 0 <= i < 3 :: raw[8 + i] == if i < |ext| then ext[i] else 0x20)
  {
    hide DotIndex;
    NameCharsAreValid();
    var s := base + [DOT] + ext;
    UpperOfValid(s);
    assert s == base + ([DOT] + ext);
    DotIndexOf(base, [DOT] + ext);
    assert Base(s) == base && Extension(s) == ext;
    assert Encode(s) == Some(Pad(base, 8) + Pad(ext, 3));
    if ext == [] { EncodeBase(base); }
  }

  lemma NameCharsAreValid()
    ensures forall c: byte :: IsValidChar(c) <==> NameChar(c as char)
  {
  }

  /** Two spellings that differ in the case of letters only. */
  predicate SameLetters(s: seq<byte>, s': seq<byte>) {
    |s'| == |s| && forall i | 0 <= i < |s| ::
      || s'[i] == s[i]
      || ('a' <= s[i] as char <= 'z' && s'[i] == s[i] - 32)
      || ('a' <= s'[i] as char <= 'z' && s[i] == s'[i] - 32)
  }

  /** They are the same name, or none. */
  lemma CaseIsIgnored(s: seq<byte>, s': seq<byte>)
    requires SameLetters(s, s')
    ensures Encode(s') == Encode(s)
  {
    assert forall i | 0 <= i < |s| :: ToUpper(s'[i]) == ToUpper(s[i]);
    assert Upper(s') == Upper(s);
  }

  /** There are no other names: every accepted one is such a base and extension in some spelling. */
  lemma EncodableHasParts(s: seq<byte>) returns (base: seq<byte>, ext: seq<byte>)
    requires Encode(s).Some?
    ensures 1 <= |base| <= 8 && |ext| <= 3
    ensures forall i | 0 <= i < |base| :: NameChar(base[i] as char)
    ensures forall i | 0 <= i < |ext| :: NameChar(ext[i] as char)
    ensures SameLetters(s, base + [0x2E] + ext) || (ext == [] && SameLetters(s, base))
  {
    hide DotIndex, Base, NonBlanks, Pad, Encode;
    var u := Upper(s);
    EncodedParts(s);
    NameCharsAreValid();
    base, ext := Base(u), Extension(u);
    assert forall i | 0 <= i < |s| :: u[i] == ToUpper(s[i]);
  }

  /** Cutting a component to 31 characters changes neither acceptance nor the encoding. */
  lemma EncodeCut(s: seq<byte>)
    ensures Encode(Cut(s)) == Encode(s)
  {
    if |s| > MAX_COMPONENT {
      var u, v := Upper(s), Upper(Cut(s));
      assert v == u[..MAX_COMPONENT];
      assert !Encodable(s) by {
        assert |u| <= |Base(u)| + 1 + |Extension(u)|;
      }
      assert !Encodable(Cut(s)) by {
        assert |v| <= |Base(v)| + 1 + |Extension(v)|;
      }
    }
  }

  /** No encoded name looks like a free slot, a dot entry or a path separator. */
  lemma EncodedFirstByte(s: seq<byte>)
    requires Encode(s).Some?
    ensures IsValidChar(Encode(s).value[0])
  {
    var u := Upper(s);
    assert Encode(s).value[0] == Base(u)[0];
  }

  /** What is displayed for an encoded name is a usable path component. */
  lemma DisplayOfEncoded(s: seq<byte>)
    requires Encode(s).Some?
    ensures var d := Display(Encode(s).value);
            IsValidChar(d[0]) && forall i | 0 <= i < |d| :: IsValidChar(d[i]) || d[i] == DOT
  {
    DecodeEncode(s);
    var u := Upper(s);
    forall i | 0 <= i < |u| ensures IsValidChar(u[i]) || u[i] == DOT {
      if i < DotIndex(u) {
        assert u[i] == Base(u)[i];
      } else if i > DotIndex(u) {
        assert u[i] == Extension(u)[i - DotIndex(u) - 1];
      }
    }
    assert u[0] == Base(u)[0];
  }

  // ---------------------------------------------------------------- the two conversion routines

  /** The first loop of fat12_make_short_name: upper-cases into a 32-byte buffer, dropping what does not fit. */
  method CopyUpper(input: seq<byte>) returns (temp: seq<byte>)
    ensures temp == Upper(Cut(input))
  {
    var buffer := new byte[32];
    var len := 0;
    while len < |input| && len < MAX_COMPONENT
      invariant 0 <= len <= |Cut(input)|
      invariant buffer[..len] == Upper(Cut(input))[..len]
    {
      buffer[len] := ToUpper(input[len]);
      len := len + 1;
    }
    return buffer[..len];
  }

  /** The scan for the dot: refuses a second dot and any blank. */
  method FindDot(temp: seq<byte>) returns (ok: bool, dot: int)
    ensures !ok ==> !AllValid(Base(temp)) || !AllValid(Extension(temp))
    ensures ok ==> -1 <= dot < |temp| && DotIndex(temp) == if dot == -1 then |temp| else dot
  {
    ghost var d := DotIndex(temp);
    dot := -1;
    for i := 0 to |temp|
      invariant -1 <= dot < i
      invariant dot == -1 ==> i <= d
      invariant dot != -1 ==> dot == d
    {
      if temp[i] == DOT {
        if dot != -1 {
          assert Extension(temp)[i - d - 1] == DOT;
          return false, dot;
        }
        dot := i;
      } else if temp[i] == SPACE {
        assert if i < d then Base(temp)[i] == SPACE else Extension(temp)[i - d - 1] == SPACE;
        return false, dot;
      }
    }
    ok := true;
  }

  lemma OneByteMore(s: seq<byte>, at: nat, part: seq<byte>, c: byte)
    requires at + |part| < |s|
    ensures Splice(s, at, part + [c]) == Splice(s, at, part)[at + |part| := c]
  {
  }

  /** The two copying loops of fat12_make_short_name: stops at the first character that is not valid. */
  method CopyValid(part: seq<byte>, out: array<byte>, at: nat) returns (ok: bool)
    requires at + |part| <= out.Length
    modifies out
    ensures ok == AllValid(part)
    ensures ok ==> out[..] == Splice(old(out[..]), at, part)
  {
    hide Splice;
    SpliceNothing(out[..], at);
    for i := 0 to |part|
      invariant AllValid(part[..i])
      invariant out[..] == Splice(old(out[..]), at, part[..i])
    {
      if !IsValidChar(part[i]) { return false; }
      assert part[..i + 1] == part[..i] + [part[i]];
      OneByteMore(old(out[..]), at, part[..i], part[i]);
      out[at + i] := part[i];
    }
    assert part[..|part|] == part;
    return true;
  }

  lemma NothingToEncode()
    ensures Encode([]) == None
  {
  }

  lemma BlankPad(s: seq<byte>)
    requires |s| == 11 && forall i | 0 <= i < 11 :: s[i] == SPACE
    ensures s == Pad([], 11)
  {
  }

  lemma PadByCopying(base: seq<byte>, ext: seq<byte>)
    requires |base| <= 8 && |ext| <= 3
    ensures Splice(Splice(Pad([], 11), 0, base), 8, ext) == Pad(base, 8) + Pad(ext, 3)
  {
  }

  /** fat12_make_short_name. None stands for FAT12_ERR_INVALID_NAME. */
  method MakeShortName(input: seq<byte>) returns (out: Option<ShortName>)
    ensures out == Encode(input)
  {
    EncodeCut(input);
    if input == [] {
      NothingToEncode();
      return None;
    }
    var temp := CopyUpper(input);
    var ok, dot := FindDot(temp);
    if !ok { return None; }
    var base := if dot == -1 then temp else temp[..dot];
    var ext := if dot == -1 then [] else temp[dot + 1..];
    assert base == Base(temp) && ext == Extension(temp);
    if |base| == 0 || |base| > 8 || |ext| > 3 { return None; }
    var raw := new byte[11](i => SPACE);
    BlankPad(raw[..]);
    ok := CopyValid(base, raw, 0);
    if !ok { return None; }
    ok := CopyValid(ext, raw, 8);
    if !ok { return None; }
    PadByCopying(base, ext);
    return Some(raw[..]);
  }

  /** The copying loops of fat12_dir_name_to_string; the bound of 12 is never met. */
  method CopyNonBlanks(raw: ShortName, lo: nat, hi: nat, prefix: seq<byte>) returns (out: seq<byte>)
    requires lo <= hi <= 11 && |prefix| + hi - lo <= 12
    ensures out == prefix + NonBlanks(raw[lo..hi])
  {
    out := prefix;
    for i := lo to hi
      invariant out == prefix + NonBlanks(raw[lo..i])
    {
      NonBlanksAppend(raw[lo..i], raw[i]);
      assert raw[lo..i + 1] == raw[lo..i] + [raw[i]];
      if raw[i] != SPACE && |out| < 12 { out := out + [raw[i]]; }
    }
  }

  /** fat12_dir_name_to_string. */
  method DirNameToString(raw: ShortName) returns (out: seq<byte>)
    ensures out == Display(raw)
  {
    out := CopyNonBlanks(raw, 0, 8, []);
    var hasExt := false;
    for i := 8 to 11
      invariant hasExt <==> NonBlanks(raw[8..i]) != []
    {
      NonBlanksAppend(raw[8..i], raw[i]);
      assert raw[8..i + 1] == raw[8..i] + [raw[i]];
      if raw[i] != SPACE { hasExt := true; }
    }
    assert raw[8..11] == raw[8..] && raw[0..8] == raw[..8];
    if hasExt { out := out + [DOT]; }
    out := CopyNonBlanks(raw, 8, 11, out);
    if out == [] { out := [QUESTION_MARK]; }
  }
}
