/** The hierarchy section: scopes, attributes and variables as the writer appends them and the reader walks over them.
    */
module Hierarchy {
  import opened Bytes
  import opened Leb128

  const SCOPE: byte := 254
  const UPSCOPE: byte := 255
  const ATTRBEGIN: byte := 252
  const ATTREND: byte := 253
  const ST_MAX: nat := 21
  const AT_MAX: nat := 3
  const MT_UNKNOWN: int := 8
  const VT_MAX: nat := 37
  const VT_READ_MAX: nat := 29
  const VT_PORT: nat := 18
  const VT_STRING: nat := 21
  const NAM_SIZ: nat := 512
  const NAM_ATTR_SIZ: nat := 65536 + 4096

  datatype Call =
    | SetScope(typ: nat, name: bytes, comp: bytes)
    | SetUpscope
    | SetAttrBegin(attr: nat, subtype: int, name: bytes, arg: nat)
    | SetAttrEnd
    | CreateVar(vt: nat, vd: byte, len: nat, name: bytes, alias: nat)

  datatype Entry =
    | Scope(typ: byte, name: bytes, comp: bytes)
    | Upscope
    | AttrBegin(attr: byte, subtype: byte, name: bytes, arg: nat)
    | AttrEnd
    | Var(vt: byte, vd: byte, name: bytes, length: nat, handle: nat, isAlias: bool)

  /** Names are C strings and numbers fit their types. */
  ghost predicate Valid(c: Call) {
    match c
    case SetScope(_, name, comp) => 0 !in name && 0 !in comp
    case SetAttrBegin(_, _, name, arg) => 0 !in name && arg < POW64
    case CreateVar(vt, _, len, name, alias) => vt <= VT_MAX && len < POW32 && 0 !in name && alias < POW32
    case _ => true
  }

  // ----- what the writer makes of a call -----------------------------------------------------------------

  function ScopeType(typ: nat): byte { if typ > ST_MAX then 0 else typ }

  function AttrType(attr: nat): byte { if attr > AT_MAX then 0 else attr }

  function SubType(attr: nat, subtype: int): byte {
    if attr > AT_MAX then MT_UNKNOWN % 256
    else if attr == 1 || attr == 3 then if subtype < 0 || subtype > 3 then 0 else subtype
    else if attr == 2 then if subtype < 0 || subtype > 15 then 0 else subtype
    else subtype % 256
  }

  predicate IsReal(vt: nat) { vt == 3 || vt == 4 || vt == 20 || vt == 29 }

  /** The length written: reals are eight bytes, strings have none. */
  function Length(vt: nat, len: nat): nat { if IsReal(vt) then 8 else if vt == VT_STRING then 0 else len }

  /** An alias of a handle that does not exist yet is no alias. */
  function Alias(alias: nat, maxhandle: nat): nat { if alias > maxhandle then 0 else alias }

  function Record(c: Call, maxhandle: nat): (r: bytes)
    requires Valid(c)
    ensures |r| > 0
  {
    match c
    case SetScope(typ, name, comp) => [SCOPE, ScopeType(typ)] + (name + [0] + (comp + [0]))
    case SetUpscope => [UPSCOPE]
    case SetAttrBegin(attr, subtype, name, arg) =>
      [ATTRBEGIN, AttrType(attr), SubType(attr, subtype)] + (name + [0] + Varint(arg))
    case SetAttrEnd => [ATTREND]
    case CreateVar(vt, vd, len, name, alias) =>
      [vt, vd] + (name + [0] + (Varint(Length(vt, len)) + Varint(Alias(alias, maxhandle))))
  }

  function After(c: Call, maxhandle: nat): nat {
    if c.CreateVar? && Alias(c.alias, maxhandle) == 0 then maxhandle + 1 else maxhandle
  }

  // ----- what the reader makes of it -----------------------------------------------------------------------

  function Cut(name: bytes, size: nat): bytes { if |name| <= size then name else name[..size] }

  /** The number of bits of a port, from the bytes of its values; the subtraction wraps in 32 bits. */
  function PortLength(len: nat): nat { (len - 2) % POW32 / 3 }

  /** The entry for a call: names cut to the reader's buffers, numbers normalised, handles counted. */
  function Seen(c: Call, maxhandle: nat): Entry
    requires Valid(c)
  {
    match c
    case SetScope(typ, name, comp) => Scope(ScopeType(typ), Cut(name, NAM_SIZ), Cut(comp, NAM_SIZ))
    case SetUpscope => Upscope
    case SetAttrBegin(attr, subtype, name, arg) =>
      AttrBegin(AttrType(attr), SubType(attr, subtype), Cut(name, NAM_ATTR_SIZ), arg)
    case SetAttrEnd => AttrEnd
    case CreateVar(vt, vd, len, name, alias) =>
      var n := Length(vt, len);
      var a := Alias(alias, maxhandle);
      Var(vt, vd, Cut(name, NAM_SIZ), if vt == VT_PORT then PortLength(n) else n, if a == 0 then maxhandle + 1 else a,
          a != 0)
  }

  // ----- what that is, in numbers ------------------------------------------------------------------------------

  /** The types of scopes from 0 to 21 come back, others as 0; names come back up to the size of the buffer. */
  lemma ScopeSeen(typ: nat, name: bytes, comp: bytes, max: nat)
    requires 0 !in name && 0 !in comp
    ensures var e := Seen(Call.SetScope(typ, name, comp), max);
      && e.Scope? && e.typ == (if typ <= 21 then typ else 0)
      && (|name| <= 512 ==> e.name == name) && (|comp| <= 512 ==> e.comp == comp)
      && e.name <= name && e.comp <= comp && |e.name| <= 512 && |e.comp| <= 512
  {}

  /** Attributes of type 0 keep the low eight bits of their subtype; those of type 1 and 3 have subtypes 0 to 3, those
      of type 2 subtypes 0 to 15, and outside these the first one; other types come back as type 0 with subtype 8. */
  lemma AttrSeen(attr: nat, subtype: int, name: bytes, arg: nat, max: nat)
    requires 0 !in name && arg < POW64
    ensures var e := Seen(Call.SetAttrBegin(attr, subtype, name, arg), max);
      && e.AttrBegin? && e.arg == arg && (|name| <= 69632 ==> e.name == name)
      && (attr == 0 ==> e.attr == 0 && (0 <= subtype < 256 ==> e.subtype == subtype))
      && (attr in {1, 3} ==> e.attr == attr && e.subtype == if 0 <= subtype <= 3 then subtype else 0)
      && (attr == 2 ==> e.attr == 2 && e.subtype == if 0 <= subtype <= 15 then subtype else 0)
      && (attr > 3 ==> e.attr == 0 && e.subtype == 8)
  {}

  /** A variable keeps its type, direction and name. Reals (types 3, 4, 20 and 29) come back with length 8, strings
      (type 21) with 0, ports (type 18) written with 3n + 2 with n, and all others with their length. An alias of a
      handle that exists comes back as an alias of it, and any other variable with the next handle. */
  lemma VarSeen(vt: nat, vd: byte, len: nat, name: bytes, alias: nat, max: nat)
    requires vt <= 37 && len < POW32 && 0 !in name && alias < POW32
    ensures var e := Seen(Call.CreateVar(vt, vd, len, name, alias), max);
      && e.Var? && e.vt == vt && e.vd == vd && (|name| <= 512 ==> e.name == name)
      && (vt in {3, 4, 20, 29} ==> e.length == 8) && (vt == 21 ==> e.length == 0)
      && (vt !in {3, 4, 18, 20, 21, 29} ==> e.length == len)
      && (if 1 <= alias <= max then e.isAlias && e.handle == alias else !e.isAlias && e.handle == max + 1)
    ensures vt == 18 ==> forall n: nat | len == 3 * n + 2 ::
      Seen(Call.CreateVar(vt, vd, len, name, alias), max).length == n
  {}

  /** The reader knows the types of variables from 0 to 29. */
  lemma TypesKnown(c: Call)
    requires c.CreateVar?
    ensures Known(c) <==> c.vt <= 29
  {}

  ghost predicate AllValid(cs: seq<Call>) { forall k | 0 <= k < |cs| :: Valid(cs[k]) }

  function HandlesAfter(cs: seq<Call>): (n: nat)
    ensures n <= |cs|
  {
    if cs == [] then 0 else After(cs[|cs| - 1], HandlesAfter(cs[..|cs| - 1]))
  }

  /** The section after some calls. */
  function Written(cs: seq<Call>): bytes
    requires AllValid(cs)
  {
    if cs == [] then [] else Written(cs[..|cs| - 1]) + Record(cs[|cs| - 1], HandlesAfter(cs[..|cs| - 1]))
  }

  function AllSeen(cs: seq<Call>): (es: seq<Entry>)
    requires AllValid(cs)
    ensures |es| == |cs|
  {
    if cs == [] then [] else AllSeen(cs[..|cs| - 1]) + [Seen(cs[|cs| - 1], HandlesAfter(cs[..|cs| - 1]))]
  }

  /** The reader knows the variable types up to this one; the FIRRTL types behind it stop it. */
  predicate Known(c: Call) { c.CreateVar? ==> c.vt <= VT_READ_MAX }

  /** How many calls come before the first one with a type the reader does not know. */
  function KnownPrefix(cs: seq<Call>): (n: nat)
    ensures n <= |cs| && (n < |cs| ==> !Known(cs[n])) && forall k | 0 <= k < n :: Known(cs[k])
  {
    if cs == [] then 0 else
    var n := KnownPrefix(cs[..|cs| - 1]);
    if n == |cs| - 1 && Known(cs[|cs| - 1]) then |cs| else n
  }

  // ----- the writer ----------------------------------------------------------------------------------------------

  class HierWriter {
    var hier: bytes
    var hierFileLen: nat
    var maxhandle: nat

    constructor ()
      ensures hier == [] && hierFileLen == 0 && maxhandle == 0
    {
      hier, hierFileLen, maxhandle := [], 0, 0;
    }

    method CreateVar(vt: nat, vd: byte, len: nat, name: bytes, aliasHandle: nat) returns (handle: nat)
      requires Valid(Call.CreateVar(vt, vd, len, name, aliasHandle))
      modifies this
      ensures var c := Call.CreateVar(vt, vd, len, name, aliasHandle);
        && hier == old(hier) + Record(c, old(maxhandle)) && maxhandle == After(c, old(maxhandle))
        && handle == Seen(c, old(maxhandle)).handle
      ensures hierFileLen == old(hierFileLen) + |hier| - |old(hier)|
    {
      ghost var was := hier;
      var n, alias := len, aliasHandle;
      hier := hier + [vt, vd] + name + [0];
      hierFileLen := hierFileLen + (|name| + 3);
      if IsReal(vt) { n := 8; } else if vt == VT_STRING { n := 0; }
      var v := WriteVarint(n);
      hier := hier + v;
      hierFileLen := hierFileLen + |v|;
      if alias > maxhandle { alias := 0; }
      var w := WriteVarint(alias);
      hier := hier + w;
      hierFileLen := hierFileLen + |w|;
      NestVarFields(was, [vt as byte, vd], name, [0], v, w);
      if alias == 0 {
        maxhandle := maxhandle + 1;
        handle := maxhandle;
      } else {
        handle := alias;
      }
    }

    method SetScope(typ: nat, name: bytes, comp: bytes)
      requires Valid(Call.SetScope(typ, name, comp))
      modifies this
      ensures hier == old(hier) + Record(Call.SetScope(typ, name, comp), old(maxhandle)) && maxhandle == old(maxhandle)
      ensures hierFileLen == old(hierFileLen) + |hier| - |old(hier)|
    {
      ghost var was := hier;
      hier := hier + [SCOPE];
      var t := if typ > ST_MAX then 0 else typ;
      hier := hier + [t];
      hier := hier + name + [0] + comp + [0];
      hierFileLen := hierFileLen + |name| + |comp| + 4;
      NestScopeFields(was, [SCOPE], [t as byte], name, [0], comp, [0]);
    }

    method SetUpscope()
      modifies this
      ensures hier == old(hier) + Record(Call.SetUpscope, old(maxhandle)) && maxhandle == old(maxhandle)
      ensures hierFileLen == old(hierFileLen) + |hier| - |old(hier)|
    {
      hier := hier + [UPSCOPE];
      hierFileLen := hierFileLen + 1;
    }

    method SetAttrBegin(attr: nat, subtype: int, name: bytes, arg: nat)
      requires Valid(Call.SetAttrBegin(attr, subtype, name, arg))
      modifies this
      ensures hier == old(hier) + Record(Call.SetAttrBegin(attr, subtype, name, arg), old(maxhandle))
      ensures maxhandle == old(maxhandle)
      ensures hierFileLen == old(hierFileLen) + |hier| - |old(hier)|
    {
      hide Varint, Record, After;
      ghost var was := hier;
      hier := hier + [ATTRBEGIN];
      var t, sub := NormalAttr(attr, subtype);
      hier := hier + [t];
      hier := hier + [sub];
      hier := hier + name + [0];
      hierFileLen := hierFileLen + |name| + 4;
      var v := WriteVarint(arg);
      hier := hier + v;
      hierFileLen := hierFileLen + |v|;
      AttrRecord(was, attr, subtype, name, arg, maxhandle);
    }

    /** Types out of range become miscellaneous, subtypes out of the range of their type the first one. */
    method NormalAttr(attr: nat, subtype: int) returns (t: byte, sub: byte)
      ensures t == AttrType(attr) && sub == SubType(attr, subtype)
    {
      var a, n := attr, subtype;
      if a > AT_MAX { a, n := 0, MT_UNKNOWN; }
      if a == 1 {
        if n < 0 || n > 3 { n := 0; }
      } else if a == 2 {
        if n < 0 || n > 15 { n := 0; }
      } else if a == 3 {
        if n < 0 || n > 3 { n := 0; }
      }
      t, sub := a, n % 256;
    }

    method SetAttrEnd()
      modifies this
      ensures hier == old(hier) + Record(Call.SetAttrEnd, old(maxhandle)) && maxhandle == old(maxhandle)
      ensures hierFileLen == old(hierFileLen) + |hier| - |old(hier)|
    {
      hier := hier + [ATTREND];
      hierFileLen := hierFileLen + 1;
    }
  }

  lemma NestVarFields(h: bytes, a: bytes, b: bytes, c: bytes, d: bytes, e: bytes)
    ensures h + a + b + c + d + e == h + (a + (b + c + (d + e)))
  {}

  lemma NestScopeFields(h: bytes, a: bytes, b: bytes, c: bytes, d: bytes, e: bytes, f: bytes)
    ensures h + a + b + c + d + e + f == h + (a + b + (c + d + (e + f)))
  {}

  lemma AttrRecord(h: bytes, attr: nat, subtype: int, name: bytes, arg: nat, max: nat)
    requires Valid(Call.SetAttrBegin(attr, subtype, name, arg))
    ensures var c := Call.SetAttrBegin(attr, subtype, name, arg);
      && h + [ATTRBEGIN] + [AttrType(attr)] + [SubType(attr, subtype)] + name + [0] + Varint(arg) == h + Record(c, max)
      && |Record(c, max)| == 4 + |name| + |Varint(arg)| && After(c, max) == max
  {
    hide Varint;
    var t, u := AttrType(attr), SubType(attr, subtype);
    NestAttrFields(h, [ATTRBEGIN], [t], [u], name, [0], Varint(arg));
    assert [ATTRBEGIN] + [t] + [u] == [ATTRBEGIN, t, u];
  }

  lemma NestAttrFields(h: bytes, a: bytes, b: bytes, c: bytes, d: bytes, e: bytes, f: bytes)
    ensures h + a + b + c + d + e + f == h + (a + b + c + (d + e + f))
  {}

  // ----- the reader ----------------------------------------------------------------------------------------------

  /** What stands at the reader's place: a record, or the end of the section. */
  ghost predicate Ahead(file: bytes, pos: nat, c: Option<Call>, maxhandle: nat) {
    match c
    case None => pos == |file|
    case Some(c) => Valid(c) && At(file, pos, Record(c, maxhandle))
  }

  class HierReader {
    const file: bytes
    var pos: nat
    var doRewind: bool
    var currentHandle: nat

    constructor (file: bytes)
      ensures this.file == file && pos == 0 && doRewind && currentHandle == 0
    {
      this.file, pos, doRewind, currentHandle := file, 0, true, 0;
    }

    /** A C string, kept up to the size of its buffer; the rest is skipped. */
    method ReadName(size: nat, ghost name: bytes) returns (pnt: bytes)
      requires At(file, pos, name + [0]) && 0 !in name
      modifies `pos
      ensures pnt == Cut(name, size) && pos == old(pos) + |name| + 1
    {
      ghost var p := pos;
      ghost var n := 0;
      ghost var w := name + [0];
      assert forall k | 0 <= k < |w| :: file[p + k] == file[p..p + |w|][k] == w[k];
      pnt := [];
      var ch := file[pos];
      pos := pos + 1;
      while ch != 0
        invariant n <= |name| && pos == p + n + 1 && pos <= |file| && ch == (name + [0])[n]
        invariant pnt == Cut(name[..n], size)
        decreases |name| - n
      {
        if |pnt| < size { pnt := pnt + [ch]; }
        assert name[..n + 1] == name[..n] + [ch];
        ch := file[pos];
        pos := pos + 1;
        n := n + 1;
      }
      assert name[..|name|] == name;
    }

    /** fstReaderIterateHier, on a section the writer produced: the entry of the next record, nothing at the end, and
        nothing for a variable type the switch does not list. */
    method IterateHier(ghost c: Option<Call>) returns (hier: Option<Entry>)
      requires pos <= |file|
      requires if doRewind then Ahead(file, 0, c, 0) else Ahead(file, pos, c, currentHandle)
      modifies this
      ensures !doRewind && pos <= |file|
      ensures c.None? || !Known(c.value) ==> hier == None
      ensures c.Some? && Known(c.value) ==>
        var max := if old(doRewind) then 0 else old(currentHandle);
        && hier == Some(Seen(c.value, max)) && currentHandle == After(c.value, max)
        && pos == (if old(doRewind) then 0 else old(pos)) + |Record(c.value, max)|
    {
      hide Seen, Record, After, Known;
      if doRewind {
        doRewind := false;
        currentHandle := 0;
        pos := 0;
      }
      if pos == |file| {
        NothingAhead(file, pos, c, currentHandle);
        return None;
      }
      SomethingAhead(file, pos, c, currentHandle);
      var tag := file[pos];
      if tag == SCOPE {
        hier := ReadScope(c.value);
      } else if tag == UPSCOPE {
        pos := pos + 1;
        hier := Some(Upscope);
        ShortRecord(c.value, currentHandle);
      } else if tag == ATTRBEGIN {
        hier := ReadAttr(c.value);
      } else if tag == ATTREND {
        pos := pos + 1;
        hier := Some(AttrEnd);
        ShortRecord(c.value, currentHandle);
      } else if tag <= VT_READ_MAX {
        hier := ReadVar(c.value);
      } else {
        pos := pos + 1;
        hier := None;
        TagOfVar(c.value, currentHandle);
      }
    }

    method ReadScope(ghost c: Call) returns (hier: Option<Entry>)
      requires Valid(c) && c.SetScope? && At(file, pos, Record(c, currentHandle))
      modifies `pos
      ensures hier == Some(Seen(c, currentHandle)) && pos == old(pos) + |Record(c, currentHandle)| <= |file|
    {
      ScopeParts(file, pos, c, currentHandle);
      pos := pos + 1;
      var typ := file[pos];
      pos := pos + 1;
      var name := ReadName(NAM_SIZ, c.name);
      var comp := ReadName(NAM_SIZ, c.comp);
      hier := Some(Scope(typ, name, comp));
    }

    method ReadAttr(ghost c: Call) returns (hier: Option<Entry>)
      requires Valid(c) && c.SetAttrBegin? && At(file, pos, Record(c, currentHandle))
      modifies `pos
      ensures hier == Some(Seen(c, currentHandle)) && pos == old(pos) + |Record(c, currentHandle)| <= |file|
    {
      AttrParts(file, pos, c, currentHandle);
      pos := pos + 1;
      var typ, subtype := file[pos], file[pos + 1];
      pos := pos + 2;
      var name := ReadName(NAM_ATTR_SIZ, c.name);
      var arg, skip := GetVarintOf(file, pos, c.arg, POW64);
      pos := pos + skip;
      hier := Some(AttrBegin(typ, subtype, name, arg));
    }

    method ReadVar(ghost c: Call) returns (hier: Option<Entry>)
      requires Valid(c) && c.CreateVar? && At(file, pos, Record(c, currentHandle))
      modifies `pos, `currentHandle
      ensures hier == Some(Seen(c, old(currentHandle))) && currentHandle == After(c, old(currentHandle))
      ensures pos == old(pos) + |Record(c, old(currentHandle))| <= |file|
    {
      VarParts(file, pos, c, currentHandle);
      var tag := file[pos];
      var direction := file[pos + 1];
      pos := pos + 2;
      var name := ReadName(NAM_SIZ, c.name);
      var length, skip := GetVarintOf(file, pos, Length(c.vt, c.len), POW32);
      pos := pos + skip;
      if tag == VT_PORT {
        length := (length - 2) % POW32;
        length := length / 3;
      }
      var alias, skip2 := GetVarintOf(file, pos, Alias(c.alias, currentHandle), POW32);
      pos := pos + skip2;
      if alias == 0 {
        currentHandle := currentHandle + 1;
        hier := Some(Var(tag, direction, name, length, currentHandle, false));
      } else {
        hier := Some(Var(tag, direction, name, length, alias, true));
      }
    }
  }

  lemma NothingAhead(file: bytes, pos: nat, c: Option<Call>, max: nat)
    requires Ahead(file, pos, c, max) && pos == |file|
    ensures c == None
  {
    hide Record;
  }

  lemma SomethingAhead(file: bytes, pos: nat, c: Option<Call>, max: nat)
    requires Ahead(file, pos, c, max) && pos < |file|
    ensures c.Some? && Valid(c.value) && At(file, pos, Record(c.value, max)) && file[pos] == Record(c.value, max)[0]
    ensures file[pos] == SCOPE <==> c.value.SetScope?
    ensures file[pos] == UPSCOPE <==> c.value.SetUpscope?
    ensures file[pos] == ATTRBEGIN <==> c.value.SetAttrBegin?
    ensures file[pos] == ATTREND <==> c.value.SetAttrEnd?
    ensures c.value.CreateVar? ==> file[pos] == c.value.vt
    ensures Known(c.value) <==> (c.value.CreateVar? ==> c.value.vt <= VT_READ_MAX)
    ensures !c.value.CreateVar? ==> After(c.value, max) == max
  {
    var r := Record(c.value, max);
    assert file[pos] == file[pos..pos + |r|][0];
  }

  lemma ShortRecord(c: Call, max: nat)
    requires Valid(c) && (c.SetUpscope? || c.SetAttrEnd?)
    ensures |Record(c, max)| == 1 && After(c, max) == max && Known(c)
    ensures Seen(c, max) == if c.SetUpscope? then Upscope else AttrEnd
  {}

  lemma TagOfVar(c: Call, max: nat)
    requires Valid(c) && c.CreateVar? && c.vt > VT_READ_MAX
    ensures !Known(c)
  {}

  lemma ScopeParts(file: bytes, pos: nat, c: Call, max: nat)
    requires Valid(c) && c.SetScope? && At(file, pos, Record(c, max))
    ensures pos + 2 < |file| && file[pos] == SCOPE && file[pos + 1] == ScopeType(c.typ)
    ensures At(file, pos + 2, c.name + [0]) && At(file, pos + 2 + |c.name| + 1, c.comp + [0])
    ensures pos + |Record(c, max)| == pos + 2 + |c.name| + 1 + |c.comp| + 1 <= |file|
  {
    var head := [SCOPE, ScopeType(c.typ)];
    AtConcat(file, pos, head, c.name + [0] + (c.comp + [0]));
    AtConcat(file, pos + 2, c.name + [0], c.comp + [0]);
    assert file[pos] == file[pos..pos + 2][0] && file[pos + 1] == file[pos..pos + 2][1];
  }

  lemma AttrParts(file: bytes, pos: nat, c: Call, max: nat)
    requires Valid(c) && c.SetAttrBegin? && At(file, pos, Record(c, max))
    ensures pos + 3 < |file| && file[pos + 1] == AttrType(c.attr) && file[pos + 2] == SubType(c.attr, c.subtype)
    ensures At(file, pos + 3, c.name + [0]) && At(file, pos + 3 + |c.name| + 1, Varint(c.arg))
    ensures pos + |Record(c, max)| == pos + 3 + |c.name| + 1 + |Varint(c.arg)| <= |file|
  {
    var head := [ATTRBEGIN, AttrType(c.attr), SubType(c.attr, c.subtype)];
    AtConcat(file, pos, head, c.name + [0] + Varint(c.arg));
    AtConcat(file, pos + 3, c.name + [0], Varint(c.arg));
    assert file[pos + 1] == file[pos..pos + 3][1] && file[pos + 2] == file[pos..pos + 3][2];
  }

  lemma VarParts(file: bytes, pos: nat, c: Call, max: nat)
    requires Valid(c) && c.CreateVar? && At(file, pos, Record(c, max))
    ensures pos + 2 < |file| && file[pos] == c.vt && file[pos + 1] == c.vd && At(file, pos + 2, c.name + [0])
    ensures var p := pos + 2 + |c.name| + 1; var len := Varint(Length(c.vt, c.len));
      && At(file, p, len) && At(file, p + |len|, Varint(Alias(c.alias, max)))
      && pos + |Record(c, max)| == p + |len| + |Varint(Alias(c.alias, max))| <= |file|
    ensures Length(c.vt, c.len) < POW32 && Alias(c.alias, max) < POW32
  {
    hide Varint;
    var head: bytes := [c.vt, c.vd];
    var len, al := Varint(Length(c.vt, c.len)), Varint(Alias(c.alias, max));
    AtConcat(file, pos, head, c.name + [0] + (len + al));
    AtConcat(file, pos + 2, c.name + [0], len + al);
    AtConcat(file, pos + 2 + |c.name| + 1, len, al);
    assert file[pos] == file[pos..pos + 2][0] && file[pos + 1] == file[pos..pos + 2][1];
  }

  // ----- both together --------------------------------------------------------------------------------------------

  method Perform(w: HierWriter, c: Call)
    requires Valid(c)
    modifies w
    ensures w.hier == old(w.hier) + Record(c, old(w.maxhandle)) && w.maxhandle == After(c, old(w.maxhandle))
    ensures w.hierFileLen == old(w.hierFileLen) + |Record(c, old(w.maxhandle))|
  {
    hide Record, After;
    match c
    case SetScope(typ, name, comp) => w.SetScope(typ, name, comp); NoHandle(c, w.maxhandle);
    case SetUpscope => w.SetUpscope(); NoHandle(c, w.maxhandle);
    case SetAttrBegin(attr, subtype, name, arg) => w.SetAttrBegin(attr, subtype, name, arg); NoHandle(c, w.maxhandle);
    case SetAttrEnd => w.SetAttrEnd(); NoHandle(c, w.maxhandle);
    case CreateVar(vt, vd, len, name, alias) => var h := w.CreateVar(vt, vd, len, name, alias);
  }

  lemma NoHandle(c: Call, max: nat)
    requires !c.CreateVar?
    ensures After(c, max) == max
  {}

  lemma AllValidPrefix(cs: seq<Call>, k: nat)
    requires AllValid(cs) && k <= |cs|
    ensures AllValid(cs[..k]) && (k < |cs| ==> Valid(cs[k]))
  {}

  lemma SnocCalls(cs: seq<Call>, k: nat)
    requires AllValid(cs) && k < |cs|
    ensures AllValid(cs[..k]) && AllValid(cs[..k + 1]) && Valid(cs[k])
    ensures Written(cs[..k + 1]) == Written(cs[..k]) + Record(cs[k], HandlesAfter(cs[..k]))
    ensures AllSeen(cs[..k + 1]) == AllSeen(cs[..k]) + [Seen(cs[k], HandlesAfter(cs[..k]))]
    ensures HandlesAfter(cs[..k + 1]) == After(cs[k], HandlesAfter(cs[..k]))
  {
    hide Record, Seen, After, Valid;
    assert cs[..k + 1][..k] == cs[..k];
  }

  lemma {:induction false} WrittenPrefix(cs: seq<Call>, k: nat, n: nat)
    requires AllValid(cs) && k <= n <= |cs|
    ensures AllValid(cs[..k]) && AllValid(cs[..n]) && Written(cs[..k]) <= Written(cs[..n])
    decreases n
  {
    hide Written, Record;
    if k < n {
      SnocCalls(cs, n - 1);
      WrittenPrefix(cs, k, n - 1);
    }
  }

  /** Where the reader stands after `k` records, the next one is ahead. */
  lemma NextAhead(cs: seq<Call>, k: nat)
    requires AllValid(cs) && k <= |cs|
    ensures AllValid(cs[..k])
    ensures Ahead(Written(cs), |Written(cs[..k])|, if k < |cs| then Some(cs[k]) else None, HandlesAfter(cs[..k]))
  {
    hide Written, Record, HandlesAfter;
    assert cs[..|cs|] == cs;
    if k < |cs| {
      SnocCalls(cs, k);
      WrittenPrefix(cs, k + 1, |cs|);
      var a, r := Written(cs[..k]), Record(cs[k], HandlesAfter(cs[..k]));
      PrefixHas(a, r, Written(cs));
    }
  }

  lemma PrefixHas(a: bytes, r: bytes, m: bytes)
    requires a + r <= m
    ensures At(m, |a|, r)
  {
    assert m[|a|..|a| + |r|] == (a + r)[|a|..];
  }

  method WriteAll(calls: seq<Call>) returns (file: bytes, len: nat)
    requires AllValid(calls)
    ensures file == Written(calls) && len == |file|
  {
    hide *;
    var w := new HierWriter();
    var k := 0;
    NothingYet(calls);
    while k < |calls|
      invariant k <= |calls| && AllValid(calls[..k])
      invariant w.hier == Written(calls[..k]) && w.maxhandle == HandlesAfter(calls[..k]) && w.hierFileLen == |w.hier|
    {
      SnocCalls(calls, k);
      Perform(w, calls[k]);
      k := k + 1;
    }
    assert calls[..k] == calls;
    file, len := w.hier, w.hierFileLen;
  }

  lemma NothingYet(cs: seq<Call>)
    ensures AllValid(cs[..0]) && Written(cs[..0]) == [] && HandlesAfter(cs[..0]) == 0 && AllSeen(cs[..0]) == []
  {}

  /** Read until the reader has no more: the entries of all calls up to the first type it does not know. */
  method ReadAll(file: bytes, ghost calls: seq<Call>) returns (entries: seq<Entry>)
    requires AllValid(calls) && file == Written(calls)
    ensures entries == AllSeen(calls)[..KnownPrefix(calls)]
  {
    hide *;
    var r := new HierReader(file);
    entries := [];
    ghost var k := 0;
    NothingYet(calls);
    while true
      invariant k <= |calls| && AllValid(calls[..k]) && entries == AllSeen(calls[..k]) && r.file == file
      invariant r.pos <= |file| && (r.doRewind ==> k == 0)
      invariant !r.doRewind ==> r.pos == |Written(calls[..k])| && r.currentHandle == HandlesAfter(calls[..k])
      invariant forall j | 0 <= j < k :: Known(calls[j])
      decreases |calls| - k
    {
      NextAhead(calls, k);
      ghost var c := if k < |calls| then Some(calls[k]) else None;
      var e := r.IterateHier(c);
      if e.None? {
        KnownPrefixIs(calls, k);
        SeenPrefix(calls, k, |calls|);
        break;
      }
      SnocCalls(calls, k);
      entries := entries + [e.value];
      k := k + 1;
    }
  }

  lemma {:induction false} KnownPrefixIs(cs: seq<Call>, k: nat)
    requires k <= |cs| && (forall j | 0 <= j < k :: Known(cs[j])) && (k < |cs| ==> !Known(cs[k]))
    ensures KnownPrefix(cs) == k
  {
    hide Known;
  }

  lemma {:induction false} SeenPrefix(cs: seq<Call>, k: nat, n: nat)
    requires AllValid(cs) && k <= n <= |cs|
    ensures AllValid(cs[..k]) && AllValid(cs[..n]) && AllSeen(cs[..k]) == AllSeen(cs[..n])[..k]
    ensures n == |cs| ==> AllSeen(cs[..n]) == AllSeen(cs)
    decreases n
  {
    hide AllSeen, Seen;
    assert n == |cs| ==> cs[..n] == cs;
    AllValidPrefix(cs, k);
    if k < n {
      SnocCalls(cs, n - 1);
      SeenPrefix(cs, k, n - 1);
    } else {
      assert AllSeen(cs[..k])[..k] == AllSeen(cs[..k]);
    }
  }

  /** Writing a hierarchy and reading it back. */
  method RoundTrip(calls: seq<Call>) returns (entries: seq<Entry>)
    requires AllValid(calls)
    ensures entries == AllSeen(calls)[..KnownPrefix(calls)]
  {
    var file, len := WriteAll(calls);
    entries := ReadAll(file, calls);
  }

  /** The whole hierarchy comes back exactly when it has no variable of a FIRRTL type. */
  lemma AllComeBack(calls: seq<Call>)
    requires AllValid(calls)
    ensures AllSeen(calls)[..KnownPrefix(calls)] == AllSeen(calls) <==> forall k | 0 <= k < |calls| :: Known(calls[k])
  {
    hide AllSeen, Known;
    if forall k | 0 <= k < |calls| :: Known(calls[k]) { KnownPrefixIs(calls, |calls|); }
  }

  /** One FIRRTL variable is enough to lose everything behind it. */
  lemma FirrtlTypeStops()
    ensures var calls := [SetScope(0, [116], []), Call.CreateVar(30, 0, 8, [97], 0), Call.CreateVar(16, 0, 1, [98], 0)];
      AllValid(calls) && KnownPrefix(calls) == 1
  {
    var calls := [SetScope(0, [116], []), Call.CreateVar(30, 0, 8, [97], 0), Call.CreateVar(16, 0, 1, [98], 0)];
    assert !Known(calls[1]) && Known(calls[0]);
    KnownPrefixIs(calls, 1);
  }

  // ----- handles ---------------------------------------------------------------------------------------------------

  /** Handles of variables that are no aliases are numbered from one, and every alias names one that came before. */
  lemma {:induction false} HandlesNumbered(cs: seq<Call>)
    requires AllValid(cs)
    ensures forall h | 1 <= h <= HandlesAfter(cs) :: Owned(AllSeen(cs), h)
    ensures forall k | 0 <= k < |cs| && AllSeen(cs)[k].Var? :: 1 <= AllSeen(cs)[k].handle <= HandlesAfter(cs)
    ensures forall j, k | 0 <= j < k < |cs| && AllSeen(cs)[j].Var? && AllSeen(cs)[k].Var? && !AllSeen(cs)[k].isAlias ::
      AllSeen(cs)[j].handle < AllSeen(cs)[k].handle
  {
    hide Written, Valid, Owned, Seen, After;
    if cs != [] {
      var n := |cs| - 1;
      HandlesNumbered(cs[..n]);
      var es, max := AllSeen(cs[..n]), HandlesAfter(cs[..n]);
      SeenHandle(cs[n], max);
      forall h | 1 <= h <= HandlesAfter(cs) ensures Owned(AllSeen(cs), h) {
        OwnedMore(es, Seen(cs[n], max), h);
      }
    }
  }

  lemma SeenHandle(c: Call, max: nat)
    requires Valid(c)
    ensures max <= After(c, max) <= max + 1
    ensures After(c, max) == max + 1 ==> Owns(Seen(c, max), max + 1)
    ensures Seen(c, max).Var? ==> 1 <= Seen(c, max).handle <= After(c, max)
    ensures Seen(c, max).Var? && !Seen(c, max).isAlias ==> Seen(c, max).handle == max + 1
  {}

  lemma OwnedMore(es: seq<Entry>, e: Entry, h: nat)
    ensures Owned(es, h) || Owns(e, h) ==> Owned(es + [e], h)
  {
    if Owned(es, h) {
      var k :| 0 <= k < |es| && Owns(es[k], h);
      assert Owns((es + [e])[k], h);
    }
    if Owns(e, h) { assert Owns((es + [e])[|es|], h); }
  }

  predicate Owned(es: seq<Entry>, h: nat) { exists k | 0 <= k < |es| :: Owns(es[k], h) }

  predicate Owns(e: Entry, h: nat) { e.Var? && !e.isAlias && e.handle == h }

  /** Every alias leads to an earlier variable of its own. */
  lemma AliasLeadsBack(cs: seq<Call>, k: nat)
    requires AllValid(cs) && k < |cs| && AllSeen(cs)[k].Var? && AllSeen(cs)[k].isAlias
    ensures exists j | 0 <= j < k :: Owns(AllSeen(cs)[j], AllSeen(cs)[k].handle)
  {
    hide AllSeen, Valid, HandlesAfter, Seen, After, Written, Owns;
    SnocCalls(cs, k);
    SeenPrefix(cs, k, |cs|);
    SeenPrefix(cs, k + 1, |cs|);
    HandlesNumbered(cs[..k]);
    var es, before := AllSeen(cs), AllSeen(cs[..k]);
    assert es[k] == es[..k + 1][k];
    AliasBelow(cs[k], HandlesAfter(cs[..k]));
    assert Owned(before, es[k].handle);
    var j :| 0 <= j < k && Owns(before[j], es[k].handle);
    assert es[j] == es[..k][j];
  }

  lemma AliasBelow(c: Call, max: nat)
    requires Valid(c) && Seen(c, max).Var? && Seen(c, max).isAlias
    ensures 1 <= Seen(c, max).handle <= max
  {}
}
