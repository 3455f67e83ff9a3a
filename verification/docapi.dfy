/** The field buffer of a document (modules/mod_docapi/mod_docapi_cdmi.c). */
module DocApi {
  import opened Wrappers

  const DAPI_FIELD_NAME_LEN: nat := 20
  const DAPI_MAX_FIELD_NUM: nat := 50
  const DAPI_DEFAULT_BUFFER_SIZE: nat := 4096

  /** At most n characters of s. */
  function Cut(s: string, n: nat): (r: string)
    ensures |r| <= n && r <= s && (|s| <= n ==> r == s)
  {
    if |s| <= n then s else s[..n]
  }

  /** What the source copies into the name of a field. */
  function Stored(name: string): string {
    Cut(name, DAPI_FIELD_NAME_LEN - 1)
  }

  /** strncmp(a, b, n) == 0 */
  predicate SameFor(a: string, b: string, n: nat) {
    Cut(a, n) == Cut(b, n)
  }

  lemma SameStored(name: string, q: string)
    ensures SameFor(Stored(name), q, DAPI_FIELD_NAME_LEN) <==> Stored(name) == q
  {
    if |q| > DAPI_FIELD_NAME_LEN {
      assert |Cut(q, DAPI_FIELD_NAME_LEN)| == DAPI_FIELD_NAME_LEN;
    }
  }

  datatype Field = Field(fieldname: string, fieldbodysize: nat, fieldbodyoffset: nat)

  /** A field as it was added: its name in full, and its bytes. */
  datatype Added = Added(name: string, data: seq<byte>)

  /** The field slots describe what was added. */
  ghost predicate Describes(fields: seq<Field>, num: nat, buffer: seq<byte>, used: nat, fs: seq<Added>) {
    && |fields| == DAPI_MAX_FIELD_NUM && num == |fs| <= DAPI_MAX_FIELD_NUM && used <= |buffer|
    && (forall i :: 0 <= i < num ==> Slot(fields[i], buffer, used, fs[i]))
    && forall i :: num <= i < DAPI_MAX_FIELD_NUM ==> fields[i].fieldname == ""
  }

  ghost predicate Slot(f: Field, buffer: seq<byte>, used: nat, a: Added) {
    && f.fieldname == Stored(a.name) && f.fieldbodysize == |a.data| && f.fieldbodyoffset + f.fieldbodysize <= used <= |buffer|
    && buffer[f.fieldbodyoffset..f.fieldbodyoffset + f.fieldbodysize] == a.data
  }

  lemma SlotKept(f: Field, b: seq<byte>, used: nat, c: seq<byte>, used': nat, a: Added)
    requires Slot(f, b, used, a) && used <= used' <= |c| && b[..used] == c[..used]
    ensures Slot(f, c, used', a)
  {
    var lo, hi := f.fieldbodyoffset, f.fieldbodyoffset + f.fieldbodysize;
    assert b[lo..hi] == b[..used][lo..hi] && c[lo..hi] == c[..used][lo..hi];
  }

  /** One field more, behind what is used. */
  lemma OneMoreSlot(fields: seq<Field>, num: nat, b: seq<byte>, used: nat, fs: seq<Added>, c: seq<byte>, a: Added)
    requires Describes(fields, num, b, used, fs) && num < DAPI_MAX_FIELD_NUM
    requires used + |a.data| <= |c| && c[..used] == b[..used] && c[used..used + |a.data|] == a.data
    ensures Describes(fields[num := Field(Stored(a.name), |a.data|, used)], num + 1, c, used + |a.data|, fs + [a])
  {
    forall i | 0 <= i < num ensures Slot(fields[i], c, used + |a.data|, fs[i]) {
      SlotKept(fields[i], b, used, c, used + |a.data|, fs[i]);
    }
  }

  lemma SlotsKept(fields: seq<Field>, num: nat, b: seq<byte>, used: nat, fs: seq<Added>, c: seq<byte>)
    requires Describes(fields, num, b, used, fs) && used <= |c| && c[..used] == b[..used]
    ensures Describes(fields, num, c, used, fs)
  {
    forall i | 0 <= i < num ensures Slot(fields[i], c, used, fs[i]) {
      SlotKept(fields[i], b, used, c, used, fs[i]);
    }
  }

  /** The first of the fields with a name; a field without one ends the search. */
  function Lookup(fs: seq<Added>, q: string): Option<seq<byte>> {
    if fs == [] || fs[0].name == "" then None
    else if Stored(fs[0].name) == q then Some(fs[0].data)
    else Lookup(fs[1..], q)
  }

  lemma LookupAt(fs: seq<Added>, i: nat, q: string)
    requires i < |fs|
    ensures Lookup(fs[i..], q) == if fs[i].name == "" then None
      else if Stored(fs[i].name) == q then Some(fs[i].data) else Lookup(fs[i + 1..], q)
  {
    assert fs[i..][1..] == fs[i + 1..];
  }

  /** What a slot tells of the field it describes. */
  lemma SlotAt(fields: seq<Field>, num: nat, buffer: seq<byte>, used: nat, fs: seq<Added>, i: nat, q: string)
    requires Describes(fields, num, buffer, used, fs) && i < num
    ensures fields[i].fieldname == "" <==> fs[i].name == ""
    ensures SameFor(fields[i].fieldname, q, DAPI_FIELD_NAME_LEN) <==> Stored(fs[i].name) == q
    ensures fields[i].fieldbodyoffset + fields[i].fieldbodysize <= |buffer|
    ensures buffer[fields[i].fieldbodyoffset..fields[i].fieldbodyoffset + fields[i].fieldbodysize] == fs[i].data
  {
    assert Slot(fields[i], buffer, used, fs[i]);
    SameStored(fs[i].name, q);
  }

  /** Behind the last slot in use, or at one without a name, the search is over. */
  lemma LookupEnds(fields: seq<Field>, num: nat, buffer: seq<byte>, used: nat, fs: seq<Added>, i: nat, q: string)
    requires Describes(fields, num, buffer, used, fs) && i <= num
    requires i < DAPI_MAX_FIELD_NUM ==> fields[i].fieldname == ""
    ensures Lookup(fs[i..], q) == None
  {
    if i < num { SlotAt(fields, num, buffer, used, fs, i, q); }
  }

  /** The first of the fields whose name agrees with q in its first 19 characters. */
  function FirstAgreeing(fs: seq<Added>, q: string): Option<seq<byte>> {
    if fs == [] then None
    else if Stored(fs[0].name) == Stored(q) then Some(fs[0].data)
    else FirstAgreeing(fs[1..], q)
  }

  lemma {:induction false} LookupShort(fs: seq<Added>, q: string)
    requires forall i :: 0 <= i < |fs| ==> fs[i].name != ""
    ensures Lookup(fs, q) == if |q| < 20 then FirstAgreeing(fs, q) else None
  {
    if fs != [] { LookupShort(fs[1..], q); }
  }

  /** Names may be longer than what is kept of them, but then they cannot be asked for: the
      first field agreeing in what is kept is found unless the name asked for is too long. */
  lemma LookupIff(fs: seq<Added>, q: string)
    requires forall i :: 0 <= i < |fs| ==> fs[i].name != ""
    ensures Lookup(fs, q) == FirstAgreeing(fs, q) <==> |q| < 20 || FirstAgreeing(fs, q) == None
  {
    LookupShort(fs, q);
  }

  /** Names agree if they are the same, or both have at least 19 characters and the same first 19. */
  lemma AgreeIff(a: string, q: string)
    ensures Stored(a) == Stored(q) <==> a == q || (|a| >= 19 && |q| >= 19 && a[..19] == q[..19])
  {
    if |a| == 19 { assert a[..19] == a; }
    if |q| == 19 { assert q[..19] == q; }
  }

  /** A field that is not found under the name it was added with. */
  lemma LongNameIsLost(data: seq<byte>)
    ensures var name := "a-name-of-20-letters";
      Lookup([Added(name, data)], name) == None && FirstAgreeing([Added(name, data)], name) == Some(data)
  {
    LookupIff([Added("a-name-of-20-letters", data)], "a-name-of-20-letters");
  }

  // ----- growth -----

  /** A size doubled k times. */
  function Doubled(a: nat, k: nat): nat {
    if k == 0 then a else 2 * Doubled(a, k - 1)
  }

  /** The first size not below n that doubling gets to. */
  function Grown(a: nat, n: nat): (r: nat)
    requires a > 0
    ensures a <= r && n <= r
    decreases n - a
  {
    if a >= n then a else Grown(2 * a, n)
  }

  lemma {:induction false} DoubledMonotonic(a: nat, j: nat, k: nat)
    requires j <= k
    ensures Doubled(a, j) <= Doubled(a, k)
    decreases k
  {
    if j < k { DoubledMonotonic(a, j, k - 1); }
  }

  lemma {:induction false} DoubledFirst(a: nat, k: nat)
    ensures Doubled(a, k + 1) == Doubled(2 * a, k)
  {
    if k > 0 { DoubledFirst(a, k - 1); }
  }

  lemma {:induction false} DoubledNothing(k: nat)
    ensures Doubled(0, k) == 0
  {
    if k > 0 { DoubledNothing(k - 1); }
  }

  lemma {:induction false} GrownIsDoubled(a: nat, n: nat) returns (k: nat)
    requires a > 0
    ensures Grown(a, n) == Doubled(a, k) && forall j :: 0 <= j < k ==> Doubled(a, j) < n
    decreases n - a
  {
    if a >= n {
      k := 0;
    } else {
      var k' := GrownIsDoubled(2 * a, n);
      k := k' + 1;
      DoubledFirst(a, k');
      forall j | 0 <= j < k ensures Doubled(a, j) < n {
        if j > 0 { DoubledFirst(a, j - 1); }
      }
    }
  }

  /** Whether a buffer of `size` bytes can be made to hold `need`, if realloc gives at most `memory`. */
  predicate CanGrow(size: nat, need: nat, memory: nat) {
    need <= size || (size > 0 && Grown(size, need) <= memory)
  }

  /** The size a buffer ends up with. */
  ghost function Enough(size: nat, need: nat): nat {
    if size > 0 then Grown(size, need) else size
  }

  /** A buffer that may be reallocated can be made large enough if and only if some size that
      doubling gets to is large enough, and is the present one or can be had. */
  lemma GrowthIff(size: nat, need: nat, memory: nat)
    ensures CanGrow(size, need, memory)
      <==> exists k :: Doubled(size, k) >= need && (k == 0 || Doubled(size, k) <= memory)
  {
    if size > 0 {
      var least := GrownIsDoubled(size, need);
      if k :| Doubled(size, k) >= need && (k == 0 || Doubled(size, k) <= memory) && k > 0 {
        DoubledMonotonic(size, least, k);
      }
      assert need <= size ==> Doubled(size, 0) >= need;
    } else {
      assert need == 0 ==> Doubled(size, 0) >= need;
      if k :| Doubled(size, k) >= need && k > 0 {
        DoubledNothing(k);
      }
    }
  }

  /** A document as it is put into the spool: the record itself, and the used part of the buffer. */
  datatype Packed = Packed(usedsize: nat, numOfFields: nat, fields: seq<Field>, data: seq<byte>)

  class Document {
    /** The largest size realloc can give. */
    const memory: nat
    /** Whether malloc returned the buffer; that of a document from the spool lies inside it. */
    const ownsBuffer: bool
    var usedsize: nat
    var buffer: array<byte>
    var numOfFields: nat
    const fields: array<Field>
    ghost var added: seq<Added>

    ghost predicate Valid()
      reads this, buffer, fields
    {
      && Describes(fields[..], numOfFields, buffer[..], usedsize, added)
      && (if ownsBuffer then buffer.Length > 0 else buffer.Length == usedsize)
    }

    /** DAPI_initDoc */
    constructor (memory: nat)
      ensures Valid() && added == [] && fresh(buffer) && fresh(fields) && ownsBuffer && this.memory == memory
      ensures usedsize == 0 && buffer.Length == 4096
    {
      this.memory, ownsBuffer := memory, true;
      buffer := new byte[DAPI_DEFAULT_BUFFER_SIZE];
      fields := new Field[DAPI_MAX_FIELD_NUM](_ => Field("", 0, 0));
      usedsize, numOfFields, added := 0, 0, [];
    }

    /** doubling_buffer. Memory that malloc did not return must not be handed to realloc; asked for
        nothing, realloc gives nothing. */
    method DoublingBuffer() returns (r: Outcome)
      modifies this`buffer
      ensures r == if !ownsBuffer then Undefined else if 0 < 2 * old(buffer.Length) <= memory then Success else Fail
      ensures r == Success ==> fresh(buffer) && buffer.Length == 2 * old(buffer.Length)
      ensures r == Success ==> buffer[..old(buffer.Length)] == old(buffer[..])
      ensures r != Success ==> buffer == old(buffer)
    {
      var size := buffer.Length;
      if !ownsBuffer {
        return Undefined;
      }
      if 2 * size > memory || size == 0 {
        return Fail;
      }
      var tmp := new byte[2 * size];
      var i := 0;
      while i < size
        invariant 0 <= i <= size && buffer == old(buffer) && forall k :: 0 <= k < i ==> tmp[k] == buffer[k]
      {
        tmp[i] := buffer[i];
        i := i + 1;
      }
      assert tmp[..size] == buffer[..];
      buffer := tmp;
      return Success;
    }

    /** Lines 140-145: room for datalen more bytes is made; what is there stays. */
    method MakeRoom(datalen: nat) returns (r: Outcome)
      requires Valid()
      modifies this`buffer
      ensures Describes(fields[..], numOfFields, buffer[..], usedsize, added) && (buffer == old(buffer) || fresh(buffer))
      ensures r == if usedsize + datalen <= old(buffer.Length) then Success else if !ownsBuffer then Undefined
        else if CanGrow(old(buffer.Length), usedsize + datalen, memory) then Success else Fail
      ensures r == Success ==> buffer.Length == Enough(old(buffer.Length), usedsize + datalen)
      ensures ownsBuffer ==> buffer.Length > 0
      ensures r == Undefined ==> buffer == old(buffer)
    {
      ghost var need := usedsize + datalen;
      while buffer.Length < usedsize + datalen
        invariant Valid() && (buffer == old(buffer) || fresh(buffer))
        invariant Enough(buffer.Length, need) == Enough(old(buffer.Length), need)
        invariant !ownsBuffer ==> buffer == old(buffer)
        invariant buffer == old(buffer) || (old(buffer.Length) < need && buffer.Length <= memory)
        decreases usedsize + datalen - buffer.Length
      {
        ghost var was := buffer[..];
        r := DoublingBuffer();
        if r != Success {
          return;
        }
        assert buffer[..][..usedsize] == buffer[..|was|][..usedsize];
        SlotsKept(fields[..], numOfFields, was, usedsize, added, buffer[..]);
      }
      return Success;
    }

    /** DAPI_addField. A document from the spool takes a field exactly if a slot is free and the
        field is empty. */
    method AddField(fieldname: string, data: seq<byte>) returns (r: Outcome)
      requires Valid() && fields as object != buffer
      modifies this, buffer, fields
      ensures r != Undefined ==> Valid()
      ensures buffer == old(buffer) || fresh(buffer)
      ensures added == if r == Success then old(added) + [Added(fieldname, data)] else old(added)
      ensures usedsize == old(usedsize) + (if r == Success then |data| else 0)
      ensures r == if old(|added|) == 50 then Fail
        else if ownsBuffer then (if CanGrow(old(buffer.Length), old(usedsize) + |data|, memory) then Success else Fail)
        else if data == [] then Success else Undefined
    {
      if numOfFields == DAPI_MAX_FIELD_NUM {
        return Fail;
      }
      r := MakeRoom(|data|);
      if r == Success {
        Append(fieldname, data);
      }
    }

    /** Lines 147-157: the slot and the bytes. */
    method Append(fieldname: string, data: seq<byte>)
      requires Describes(fields[..], numOfFields, buffer[..], usedsize, added) && fields as object != buffer
      requires numOfFields < DAPI_MAX_FIELD_NUM && usedsize + |data| <= buffer.Length
      modifies this`usedsize, this`numOfFields, this`added, buffer, fields
      ensures Describes(fields[..], numOfFields, buffer[..], usedsize, added)
      ensures usedsize == old(usedsize) + |data| && added == old(added) + [Added(fieldname, data)]
    {
      ghost var was, slots := buffer[..], fields[..];
      fields[numOfFields] := Field(Stored(fieldname), |data|, usedsize);
      CopyIn(data);
      OneMoreSlot(slots, numOfFields, was, usedsize, added, buffer[..], Added(fieldname, data));
      assert fields[..] == slots[numOfFields := Field(Stored(fieldname), |data|, usedsize)];
      usedsize := usedsize + |data|;
      numOfFields := numOfFields + 1;
      added := added + [Added(fieldname, data)];
    }

    /** memcpy behind what is used. */
    method CopyIn(data: seq<byte>)
      requires usedsize + |data| <= buffer.Length
      modifies buffer
      ensures buffer[..usedsize] == old(buffer[..usedsize]) && buffer[usedsize..usedsize + |data|] == data
    {
      var i := 0;
      while i < |data|
        invariant 0 <= i <= |data|
        invariant forall k :: 0 <= k < usedsize ==> buffer[k] == old(buffer[k])
        invariant forall k :: 0 <= k < i ==> buffer[usedsize + k] == data[k]
      {
        buffer[usedsize + i] := data[i];
        i := i + 1;
      }
    }

    /** DAPI_getField */
    method GetField(fieldname: string) returns (r: Option<seq<byte>>)
      requires Valid()
      ensures r == Lookup(added, fieldname)
    {
      var i := 0;
      assert added[0..] == added;
      while i < DAPI_MAX_FIELD_NUM && fields[i].fieldname != ""
        invariant 0 <= i <= numOfFields && Lookup(added[i..], fieldname) == Lookup(added, fieldname)
        decreases DAPI_MAX_FIELD_NUM - i
      {
        LookupAt(added, i, fieldname);
        SlotAt(fields[..], numOfFields, buffer[..], usedsize, added, i, fieldname);
        if SameFor(fields[i].fieldname, fieldname, DAPI_FIELD_NAME_LEN) {
          var f := fields[i];
          return Some(buffer[f.fieldbodyoffset..f.fieldbodyoffset + f.fieldbodysize]);
        }
        i := i + 1;
      }
      LookupEnds(fields[..], numOfFields, buffer[..], usedsize, added, i, fieldname);
      return None;
    }

    /** DAPI_put packs the record and the used part of the buffer. */
    method Put() returns (packed: Packed)
      requires Valid()
      ensures Describes(packed.fields, packed.numOfFields, packed.data, packed.usedsize, added)
      ensures packed.usedsize == |packed.data|
    {
      packed := Packed(usedsize, numOfFields, fields[..], buffer[..usedsize]);
      forall i | 0 <= i < numOfFields ensures Slot(packed.fields[i], packed.data, usedsize, added[i]) {
        SlotKept(fields[..][i], buffer[..], usedsize, packed.data, usedsize, added[i]);
      }
    }

    /** DAPI_get: the buffer is exactly as large as what is used. */
    constructor Get(packed: Packed, memory: nat, ghost added: seq<Added>)
      requires Describes(packed.fields, packed.numOfFields, packed.data, packed.usedsize, added)
      requires packed.usedsize == |packed.data|
      ensures Valid() && this.added == added && !ownsBuffer && fresh(buffer) && fresh(fields)
    {
      this.memory, ownsBuffer := memory, false;
      usedsize, numOfFields, this.added := packed.usedsize, packed.numOfFields, added;
      buffer := new byte[|packed.data|](i requires 0 <= i < |packed.data| => packed.data[i]);
      fields := new Field[|packed.fields|](i requires 0 <= i < |packed.fields| => packed.fields[i]);
      new;
      assert fields[..] == packed.fields && buffer[..] == packed.data;
    }
  }

  /** Adds the fields one after the other, as long as that succeeds. */
  method Fill(doc: Document, fs: seq<Added>) returns (n: nat)
    requires doc.Valid() && doc.added == [] && doc.fields as object != doc.buffer && doc.ownsBuffer
    modifies doc, doc.buffer, doc.fields
    ensures doc.Valid() && n <= |fs| && n <= 50 && doc.added == fs[..n]
    ensures doc.fields as object != doc.buffer
  {
    n := 0;
    var ok := true;
    while n < |fs| && ok
      invariant n <= |fs| && doc.Valid() && (doc.buffer == old(doc.buffer) || fresh(doc.buffer))
      invariant doc.added == fs[..n] && doc.fields as object != doc.buffer
      decreases |fs| - n, ok
    {
      assert fs[..n + 1] == fs[..n] + [Added(fs[n].name, fs[n].data)];
      var r := doc.AddField(fs[n].name, fs[n].data);
      ok := r == Success;
      if ok {
        n := n + 1;
      }
    }
  }

  /** Into the spool and out again. */
  method Reload(doc: Document) returns (doc2: Document)
    requires doc.Valid()
    ensures fresh(doc2) && fresh(doc2.buffer) && fresh(doc2.fields)
    ensures doc2.Valid() && doc2.added == doc.added && !doc2.ownsBuffer
  {
    var packed := doc.Put();
    doc2 := new Document.Get(packed, doc.memory, doc.added);
  }

  /** A document that is filled, put into the spool and taken out again: every field asked for is
      the first one added under the name, before as well as afterwards. */
  method FillAndReload(fs: seq<Added>, q: string, memory: nat) returns (n: nat, before: Option<seq<byte>>, after: Option<seq<byte>>)
    requires forall i :: 0 <= i < |fs| ==> fs[i].name != ""
    ensures n <= |fs| && n <= 50
    ensures before == after == if |q| < 20 then FirstAgreeing(fs[..n], q) else None
  {
    var doc := new Document(memory);
    n := Fill(doc, fs);
    LookupShort(fs[..n], q);
    before := doc.GetField(q);
    var doc2 := Reload(doc);
    after := doc2.GetField(q);
  }

  /** A document with one field of one byte is reloaded and gets another such field: its buffer,
      which is as full as any such buffer, would be reallocated inside the spool. */
  method AddToReloaded(memory: nat, x: byte) returns (first: Outcome, second: Outcome)
    ensures first == Success && second == Undefined
  {
    var doc := new Document(memory);
    first := doc.AddField("a", [x]);
    var doc2 := Reload(doc);
    second := doc2.AddField("b", [x]);
  }
}
