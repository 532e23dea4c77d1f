/**
  The put and get buffers of src/common.c and the values written to them. What has been
  put, and what is still to be read, is kept as a list of fields.
 */
module Buffers {
  import opened Options
  import opened Bytes
  import opened Sequences

  // a char pointer: NULL or the bytes before the terminator
  type Str = Option<seq<Byte>>

  // ---- representations ----

  function BoolBytes(v: int): seq<Byte> {
    [if v != 0 then 1 else 0]
  }

  function NormBool(v: int): int {
    if v != 0 then 1 else 0
  }

  function Text(s: Str): seq<Byte> {
    if s.Some? then s.value else []
  }

  // the length is written with 16 bits, the text in full
  function StrBytes(s: Str): seq<Byte> {
    PutU16(|Text(s)| % 0x1_0000) + Text(s)
  }

  function NormStr(s: Str): Str {
    if Text(s) == [] then None else s
  }

  predicate FitsStr(s: Str) {
    |Text(s)| < 0x1_0000
  }

  function OpaqueBytes(o: seq<Byte>): seq<Byte> {
    PutU32(|o| % 0x1_0000_0000) + o
  }

  predicate FitsOpaque(o: seq<Byte>) {
    |o| < 0x1_0000_0000
  }

  // what one put writes and one get reads
  datatype Field = F16(n16: U16) | F32(n32: U32) | FBool(b: int) | FStr(s: Str) | FOpaque(o: seq<Byte>)

  function FieldBytes(f: Field): seq<Byte> {
    match f
    case F16(n) => PutU16(n)
    case F32(n) => PutU32(n)
    case FBool(v) => BoolBytes(v)
    case FStr(s) => StrBytes(s)
    case FOpaque(o) => OpaqueBytes(o)
  }

  function FieldsBytes(fs: seq<Field>): seq<Byte> {
    if fs == [] then [] else FieldBytes(fs[0]) + FieldsBytes(fs[1..])
  }

  predicate FitsField(f: Field) {
    match f
    case FStr(s) => FitsStr(s)
    case FOpaque(o) => FitsOpaque(o)
    case _ => true
  }

  predicate Fits(fs: seq<Field>) {
    forall i :: 0 <= i < |fs| ==> FitsField(fs[i])
  }

  lemma {:induction false} FieldsAppend(fs: seq<Field>, gs: seq<Field>)
    ensures FieldsBytes(fs + gs) == FieldsBytes(fs) + FieldsBytes(gs)
  {
    if fs == [] {
      assert fs + gs == gs;
    } else {
      assert (fs + gs)[1..] == fs[1..] + gs;
      FieldsAppend(fs[1..], gs);
      Regroup(FieldBytes(fs[0]), FieldsBytes(fs[1..]), FieldsBytes(gs));
    }
  }

  lemma OneField(f: Field)
    ensures FieldsBytes([f]) == FieldBytes(f)
  {
    assert [f][1..] == [];
  }

  // an opaque is its length and its contents
  lemma OpaqueInline(before: seq<Field>, inner: seq<Field>)
    ensures FieldsBytes(before + [FOpaque(FieldsBytes(inner))]) ==
            FieldsBytes(before + ([F32(|FieldsBytes(inner)| % 0x1_0000_0000)] + inner))
  {
    var o := FieldsBytes(inner);
    var length := F32(|o| % 0x1_0000_0000);
    OneField(FOpaque(o));
    FieldsFirst(length, inner);
    FieldsAppend(before, [FOpaque(o)]);
    FieldsAppend(before, [length] + inner);
  }

  lemma FieldsFirst(f: Field, fs: seq<Field>)
    ensures FieldsBytes([f] + fs) == FieldBytes(f) + FieldsBytes(fs)
  {
    assert ([f] + fs)[1..] == fs;
  }

  lemma OpaqueShort(o: seq<Byte>)
    requires FitsOpaque(o)
    ensures OpaqueBytes(o) == PutU32(|o|) + o
  {}

  // what is found where a string is to be read
  lemma StrAhead(bs: seq<Byte>, s: Str, tail: seq<Byte>)
    requires bs == StrBytes(s) + tail && FitsStr(s)
    ensures |bs| >= 2 && GetU16(bs) == |Text(s)| && bs[2..] == Text(s) + tail
  {
    var n := |Text(s)|;
    Regroup(PutU16(n), Text(s), tail);
    GetPutU16(n, Text(s) + tail);
    TailIs(bs, PutU16(n), Text(s) + tail);
  }

  lemma OpaqueAhead(bs: seq<Byte>, o: seq<Byte>, tail: seq<Byte>)
    requires bs == OpaqueBytes(o) + tail && FitsOpaque(o)
    ensures |bs| >= 4 && GetU32(bs) == |o| && bs[4..] == o + tail
  {
    var n := |o|;
    OpaqueShort(o);
    OpaqueGroup(bs, PutU32(n), o, tail);
    GetPutU32(n, o + tail);
  }

  lemma OpaqueGroup(bs: seq<Byte>, a: seq<Byte>, o: seq<Byte>, tail: seq<Byte>)
    requires bs == (a + o) + tail
    ensures bs == a + (o + tail) && bs[|a|..] == o + tail
  {}

  lemma TailIs(s: seq<Byte>, a: seq<Byte>, tail: seq<Byte>)
    ensures s == a + tail ==> |a| <= |s| && s[|a|..] == tail && s[..|a|] == a
  {}

  // A string of any length survives exactly when its length fits in 16 bits.
  lemma StringExact(s: Str, tail: seq<Byte>)
    ensures var n := GetU16(StrBytes(s) + tail);
      StrBytes(s)[2..2 + n] == Text(s) <==> FitsStr(s)
  {
    GetPutU16(|Text(s)| % 0x1_0000, Text(s) + tail);
    Regroup(PutU16(|Text(s)| % 0x1_0000), Text(s), tail);
  }

  // ---- writing ----

  class PutBuffer {
    var buf: array?<Byte>
    var len: nat
    var ptr: nat      // offset of the first unused byte
    var rem: nat
    ghost var fields: seq<Field>   // what has been put so far

    ghost predicate Shape()
      reads this
    {
      ptr + rem == len && (if buf == null then len == 0 else buf.Length == len)
    }

    ghost function Contents(): seq<Byte>
      requires Shape()
      reads this, buf
    {
      if buf == null then [] else buf[..ptr]
    }

    ghost predicate Valid()
      reads this, buf
    {
      Shape() && Contents() == FieldsBytes(fields)
    }

    // mwPutBuffer_new
    constructor ()
      ensures Valid() && fields == [] && buf == null
    {
      buf, len, ptr, rem, fields := null, 0, 0, 0, [];
    }

    // ensure_buffer: the buffer doubles until there is room
    method EnsureBuffer(needed: nat)
      requires Shape() && needed > 0
      modifies this
      ensures Shape() && Contents() == old(Contents()) && rem >= needed && buf != null && fields == old(fields)
      ensures buf == old(buf) || fresh(buf)
    {
      if rem < needed {
        var use := len - rem;
        var size := if len == 0 then 1024 else len;
        size := Doubled(size, use, needed);
        var t := new Byte[size](_ => 0);
        if buf != null {
          var s := buf;
          forall i | 0 <= i < use {
            t[i] := s[i];
          }
        }
        assert t[..use] == Contents();
        buf := t;
        len := size;
        ptr := use;
        rem := size - use;
      }
    }

    // its loop
    method Doubled(start: nat, use: nat, needed: nat) returns (size: nat)
      requires start > 0 && use <= start
      ensures size >= use + needed && size >= start
    {
      size := start;
      while size - use < needed
        invariant size >= start
        decreases use + needed - size
      {
        size := size * 2;
      }
    }

    // memcpy to ptr, after ensure_buffer has made room
    method Append(data: seq<Byte>)
      requires Shape()
      modifies this, buf
      ensures Shape() && Contents() == old(Contents()) + data && fields == old(fields) && (buf == old(buf) || fresh(buf))
    {
      if |data| > 0 {
        EnsureBuffer(|data|);
        var t, at := buf, ptr;
        forall i | 0 <= i < |data| {
          t[at + i] := data[i];
        }
        ptr := ptr + |data|;
        rem := rem - |data|;
      }
    }

    // a field has been written whole
    ghost method Wrote(f: Field, before: seq<Byte>)
      requires Shape() && before == FieldsBytes(fields) && Contents() == before + FieldBytes(f)
      modifies `fields
      ensures Valid() && fields == old(fields) + [f] && Contents() == old(Contents())
    {
      FieldsAppend(fields, [f]);
      OneField(f);
      fields := fields + [f];
    }

    // guint16_put
    method Guint16(v: U16)
      requires Valid()
      modifies this, buf
      ensures Valid() && fields == old(fields) + [F16(v)] && (buf == old(buf) || fresh(buf))
    {
      Append([v / 0x100, v % 0x100]);
      Wrote(F16(v), old(Contents()));
    }

    // guint32_put
    method Guint32(v: U32)
      requires Valid()
      modifies this, buf
      ensures Valid() && fields == old(fields) + [F32(v)] && (buf == old(buf) || fresh(buf))
    {
      Append([v / 0x100_0000, v / 0x1_0000 % 0x100, v / 0x100 % 0x100, v % 0x100]);
      Wrote(F32(v), old(Contents()));
    }

    // gboolean_put
    method Gboolean(v: int)
      requires Valid()
      modifies this, buf
      ensures Valid() && fields == old(fields) + [FBool(v)] && (buf == old(buf) || fresh(buf))
    {
      Append([if v != 0 then 1 else 0]);
      Wrote(FBool(v), old(Contents()));
    }

    // mwString_put
    method String(s: Str)
      requires Valid()
      modifies this, buf
      ensures Valid() && fields == old(fields) + [FStr(s)] && (buf == old(buf) || fresh(buf))
    {
      var n := if s.Some? then |s.value| else 0;
      Append(PutU16(n % 0x1_0000));
      if n > 0 {
        Append(s.value);
      }
      Wrote(FStr(s), old(Contents()));
    }

    // mwOpaque_put
    method Opaque(o: seq<Byte>)
      requires Valid()
      modifies this, buf
      ensures Valid() && fields == old(fields) + [FOpaque(o)] && (buf == old(buf) || fresh(buf))
    {
      var head := PutU32(|o| % 0x1_0000_0000);
      Append(head);
      if |o| > 0 {
        Append(o);
      }
      Regroup(old(Contents()), head, o);
      Wrote(FOpaque(o), old(Contents()));
    }

    // the same bytes, told apart differently
    ghost method Reread(fs: seq<Field>)
      requires Valid() && FieldsBytes(fs) == FieldsBytes(fields)
      modifies `fields
      ensures Valid() && fields == fs
    {
      fields := fs;
    }

    // mwPutBuffer_finalize
    method Finalize() returns (o: seq<Byte>)
      requires Valid()
      ensures o == FieldsBytes(fields)
    {
      o := if buf == null then [] else buf[..len - rem];
    }
  }

  // ---- reading ----

  class GetBuffer {
    const buf: seq<Byte>
    var ptr: nat
    var rem: nat
    var error: bool
    ghost var coming: seq<Field>   // what is still to be read, when it is known

    ghost predicate Valid()
      reads this
    {
      ptr + rem == |buf|
    }

    // the rest of the buffer is the representation of the fields that are to come
    ghost predicate Ready()
      reads this
    {
      Valid() && !error && Fits(coming) && buf[ptr..] == FieldsBytes(coming)
    }

    // mwGetBuffer_wrap
    constructor (o: seq<Byte>, ghost fs: seq<Field>)
      ensures Valid() && !error && buf == o && coming == fs
      ensures o == FieldsBytes(fs) && Fits(fs) ==> Ready()
    {
      buf, ptr, rem, error, coming := o, 0, |o|, false, fs;
    }

    // check_buffer
    method Check(needed: nat) returns (ok: bool)
      requires Valid()
      modifies `error
      ensures error == (old(error) || rem < needed) && ok == !error
    {
      if !error {
        error := rem < needed;
      }
      ok := !error;
    }

    method Take(n: nat) returns (s: seq<Byte>)
      requires Valid() && n <= rem
      modifies `ptr, `rem
      ensures Valid() && s == buf[old(ptr)..old(ptr) + n] && ptr == old(ptr) + n
    {
      s := buf[ptr..ptr + n];
      ptr := ptr + n;
      rem := rem - n;
    }

    // What every get keeps: the error sticks and nothing is read after it.
    twostate predicate Sticky()
      reads this
    {
      Valid() && old(ptr) <= ptr && (old(error) ==> error && ptr == old(ptr))
    }

    // n fields have been read as they were announced
    twostate predicate Went(n: nat)
      requires n <= |old(coming)|
      reads this
    {
      Ready() && coming == old(coming)[n..]
    }

    // say what is to come
    ghost method Announce(fs: seq<Field>)
      modifies `coming
      ensures coming == fs
    {
      coming := fs;
    }

    // guint16_get into a variable that holds zero
    method Guint16() returns (v: U16)
      requires Valid()
      modifies this
      ensures Sticky() && (error ==> v == 0 && ptr == old(ptr))
      ensures error == (old(error) || old(rem) < 2)
      ensures !error ==> v == GetU16(buf[old(ptr)..]) && ptr == old(ptr) + 2
      ensures old(Ready()) && |old(coming)| > 0 && old(coming)[0].F16? ==> v == old(coming)[0].n16 && Went(1)
    {
      v := 0;
      if error {
        return;
      }
      var ok := Check(2);
      if |coming| > 0 && coming[0].F16? {
        GetPutU16(coming[0].n16, FieldsBytes(coming[1..]));
        TailIs(buf[ptr..], PutU16(coming[0].n16), FieldsBytes(coming[1..]));
      }
      if !ok {
        return;
      }
      v := GetU16(buf[ptr..]);
      var s := Take(2);
      coming := if |coming| > 0 then coming[1..] else [];
    }

    // guint32_get
    method Guint32() returns (v: U32)
      requires Valid()
      modifies this
      ensures Sticky() && (error ==> v == 0 && ptr == old(ptr))
      ensures error == (old(error) || old(rem) < 4)
      ensures !error ==> v == GetU32(buf[old(ptr)..]) && ptr == old(ptr) + 4
      ensures old(Ready()) && |old(coming)| > 0 && old(coming)[0].F32? ==> v == old(coming)[0].n32 && Went(1)
    {
      v := 0;
      if error {
        return;
      }
      var ok := Check(4);
      if |coming| > 0 && coming[0].F32? {
        GetPutU32(coming[0].n32, FieldsBytes(coming[1..]));
        TailIs(buf[ptr..], PutU32(coming[0].n32), FieldsBytes(coming[1..]));
      }
      if !ok {
        return;
      }
      v := GetU32(buf[ptr..]);
      var s := Take(4);
      coming := if |coming| > 0 then coming[1..] else [];
    }

    // gboolean_get
    method Gboolean() returns (v: int)
      requires Valid()
      modifies this
      ensures Sticky() && 0 <= v <= 1 && (error ==> v == 0)
      ensures error == (old(error) || old(rem) < 1)
      ensures !error ==> v == NormBool(buf[old(ptr)]) && ptr == old(ptr) + 1
      ensures old(Ready()) && |old(coming)| > 0 && old(coming)[0].FBool? ==> v == NormBool(old(coming)[0].b) && Went(1)
    {
      v := 0;
      if error {
        return;
      }
      var ok := Check(1);
      if |coming| > 0 && coming[0].FBool? {
        TailIs(buf[ptr..], BoolBytes(coming[0].b), FieldsBytes(coming[1..]));
      }
      if !ok {
        return;
      }
      v := if buf[ptr] != 0 then 1 else 0;
      var s := Take(1);
      coming := if |coming| > 0 then coming[1..] else [];
    }

    // the length of a string or an opaque has been read: take that many bytes
    method TakeText(n: nat, ghost text: seq<Byte>, ghost tail: seq<Byte>) returns (ok: bool, s: seq<Byte>)
      requires Valid()
      modifies `ptr, `rem, `error
      ensures Sticky() && ok == !error && (ok ==> |s| == n) && (!ok ==> s == [])
      ensures old(!error && buf[ptr..] == text + tail) && n == |text| ==> ok && s == text && buf[ptr..] == tail
    {
      s := [];
      TailIs(buf[ptr..], text, tail);
      ok := Check(n);
      if ok && n > 0 {
        s := Take(n);
      } else if n == 0 {
        assert [] + tail == tail;
      }
    }

    // mwString_get
    method String() returns (v: Str)
      requires Valid()
      modifies this
      ensures Sticky()
      ensures old(Ready()) && |old(coming)| > 0 && old(coming)[0].FStr? ==> v == NormStr(old(coming)[0].s) && Went(1)
    {
      v := None;
      if error {
        return;
      }
      ghost var known := Ready() && |coming| > 0 && coming[0].FStr?;
      ghost var text: seq<Byte>, tail: seq<Byte>, more := [], [], if |coming| > 0 then coming[1..] else [];
      if known {
        text, tail := Text(coming[0].s), FieldsBytes(more);
        StrAhead(buf[ptr..], coming[0].s, tail);
        assert buf[ptr..][2..] == buf[ptr + 2..];
      }
      var len := Guint16();
      var ok, s := TakeText(len, text, tail);
      coming := more;
      if ok && len > 0 {
        v := Some(s);
      }
    }

    // mwOpaque_get
    method Opaque() returns (v: seq<Byte>)
      requires Valid()
      modifies this
      ensures Sticky()
      ensures old(Ready()) && |old(coming)| > 0 && old(coming)[0].FOpaque? ==> v == old(coming)[0].o && Went(1)
    {
      v := [];
      if error {
        return;
      }
      ghost var known := Ready() && |coming| > 0 && coming[0].FOpaque?;
      ghost var text: seq<Byte>, tail: seq<Byte>, more := [], [], if |coming| > 0 then coming[1..] else [];
      if known {
        text, tail := coming[0].o, FieldsBytes(more);
        OpaqueAhead(buf[ptr..], text, tail);
        assert buf[ptr..][4..] == buf[ptr + 4..];
      }
      var tmp := Guint32();
      var ok, s := TakeText(tmp, text, tail);
      coming := more;
      v := s;
    }
  }
}
