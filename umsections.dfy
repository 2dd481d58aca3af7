/** The section store of the assembler back end: a table from section names to
    growable sequences of 32-bit words, a current section that receives emitted
    words, error reports through a callback, and serialisation of every word as
    four big-endian bytes.

    The pure functions below give the meaning of each operation on a `State`;
    the class `Store` holds the same state in fields that its methods update in
    place, and each method is proved to move `Model()` as the function says. */
module Umsections {

  import opened Wrappers
  import opened Layout

  type Words = seq<bv32>

  /** A section name is bound either to its word sequence or, for a section
      that was only ever selected, to no sequence at all (a `NULL` entry). */
  type Table = map<string, Option<Words>>

  datatype State = State(table: Table, current: Option<string>)

  /** The two reports the store hands to the error callback. */
  datatype Error = Missing(name: string) | OutOfBounds

  /** The text passed to the callback for each report (the `Fmt_string`
      results of `Umsections_length`, `Umsections_getword` and
      `Umsections_putword`). */
  function Message(e: Error): string
  {
    match e
    case Missing(name) => "Section " + name + " does NOT exist!\n"
    case OutOfBounds => "OUT OF BOUNDS!"
  }

  /** `section_exists`: the table binds `name` to a word sequence. An entry
      bound to no sequence does not count as existing. */
  function SectionExists(t: Table, name: string): (b: bool)
    ensures name !in t ==> !b
    ensures name in t && t[name] == None ==> !b
    ensures name in t && t[name] != None ==> b
  {
    name in t && t[name].Some?
  }

  /** What `Umsections_length` returns: the word count of an existing section,
      0 otherwise. */
  function Len(t: Table, name: string): nat
  {
    if SectionExists(t, name) then |t[name].value| else 0
  }

  /** The reports `Umsections_length` makes. */
  function LengthErrors(t: Table, name: string): seq<Error>
  {
    if SectionExists(t, name) then [] else [Missing(name)]
  }

  /** The reports `Umsections_getword` and `Umsections_putword` make before
      the access: their own existence check (the same test as the length
      query's), the one inside the length query they call, and the bound check
      against that length. */
  function AccessErrors(t: Table, name: string, i: int): seq<Error>
  {
    LengthErrors(t, name) + LengthErrors(t, name) + BoundErrors(t, name, i)
  }

  /** What a read or patch reports: "OUT OF BOUNDS!" exactly when `i` is not
      below the queried length, "does NOT exist" twice for a section without
      words and never otherwise, and nothing at all exactly when the section
      has words and `i` is below its length (a negative `i` included). */
  lemma AccessErrorsCases(t: Table, name: string, i: int)
    ensures OutOfBounds in AccessErrors(t, name, i) <==> i >= Len(t, name)
    ensures multiset(AccessErrors(t, name, i))[Missing(name)] == if SectionExists(t, name) then 0 else 2
    ensures forall e | e in AccessErrors(t, name, i) :: e == OutOfBounds || e == Missing(name)
    ensures AccessErrors(t, name, i) == [] <==> SectionExists(t, name) && i < Len(t, name)
    ensures forall e | e in AccessErrors(t, name, i) ::
      Message(e) == "OUT OF BOUNDS!" || Message(e) == "Section " + name + " does NOT exist!\n"
  {
  }

  /** The report of the bound check against the queried length. */
  function BoundErrors(t: Table, name: string, i: int): seq<Error>
  {
    if i >= Len(t, name) then [OutOfBounds] else []
  }

  /** The access that follows the checks reads a real word. */
  predicate InBounds(t: Table, name: string, i: int)
  {
    SectionExists(t, name) && 0 <= i < |t[name].value|
  }

  /** The word a read at `i` yields, or None when the access faults. */
  function Get(t: Table, name: string, i: int): Option<bv32>
  {
    if InBounds(t, name, i) then Some(t[name].value[i]) else None
  }

  /** The table after overwriting word `i` of `name` with `w`; an access that
      faults changes nothing. */
  function Put(t: Table, name: string, i: int, w: bv32): (r: Table)
    ensures r.Keys == t.Keys
    ensures forall n :: SectionExists(r, n) == SectionExists(t, n)
    ensures forall n :: Len(r, n) == Len(t, n)
    ensures InBounds(t, name, i) ==> Get(r, name, i) == Some(w)
    ensures forall n, j | n != name || j != i :: Get(r, n, j) == Get(t, n, j)
    ensures !InBounds(t, name, i) ==> r == t
  {
    if InBounds(t, name, i) then t[name := Some(t[name].value[i := w])] else t
  }

  /** The store `Umsections_new(name, …)` creates. */
  function Init(name: string): (st: State)
    ensures st.table.Keys == {name}
    ensures SectionExists(st.table, name) && Len(st.table, name) == 0
    ensures st.current == None
  {
    State(map[name := Some([])], None)
  }

  /** `Umsections_section`: makes `s` current, adding it bound to no sequence
      when it has no sequence yet. */
  function Select(st: State, s: string): (r: State)
    ensures r.current == Some(s)
    ensures r.table.Keys == st.table.Keys + {s}
    ensures forall n | n in st.table && n != s :: r.table[n] == st.table[n]
    ensures SectionExists(r.table, s) <==> SectionExists(st.table, s)
    ensures SectionExists(st.table, s) ==> r.table[s] == st.table[s]
  {
    var t := if SectionExists(st.table, s) then st.table else st.table[s := None];
    State(t, Some(s))
  }

  /** Selecting the same name twice has the effect of selecting it once. */
  lemma SelectIdempotent(st: State, s: string)
    ensures Select(Select(st, s), s) == Select(st, s)
  {
  }

  /** A name selected before it had words stays without words: its length
      query reports it missing, and nothing can be emitted into it. */
  lemma SelectNewSectionHasNoWords(st: State, s: string)
    requires !SectionExists(st.table, s)
    ensures !SectionExists(Select(st, s).table, s)
    ensures Len(Select(st, s).table, s) == 0
    ensures LengthErrors(Select(st, s).table, s) == [Missing(s)]
    ensures !CanEmit(Select(st, s))
  {
  }

  /** `Umsections_emit_word` reaches a word sequence: a section is current and
      bound to words. */
  predicate CanEmit(st: State)
  {
    st.current.Some? && SectionExists(st.table, st.current.value)
  }

  function CurrentWords(st: State): Words
    requires CanEmit(st)
  {
    st.table[st.current.value].value
  }

  /** `Umsections_emit_word`: appends `d` to the current section. */
  function Emit(st: State, d: bv32): (r: State)
    requires CanEmit(st)
    ensures CanEmit(r) && r.current == st.current && r.table.Keys == st.table.Keys
    ensures |CurrentWords(r)| == |CurrentWords(st)| + 1
    ensures CurrentWords(r)[..|CurrentWords(st)|] == CurrentWords(st)
    ensures CurrentWords(r)[|CurrentWords(st)|] == d
    ensures forall n | n in st.table && n != st.current.value :: r.table[n] == st.table[n]
  {
    var c := st.current.value;
    State(st.table[c := Some(CurrentWords(st) + [d])], st.current)
  }

  /** Emits the words of `ws` one after another. */
  function EmitAll(st: State, ws: Words): (r: State)
    requires CanEmit(st)
    ensures CanEmit(r)
    decreases |ws|
  {
    if ws == [] then st else EmitAll(Emit(st, ws[0]), ws[1..])
  }

  /** A run of emits appends exactly those words, in order, to the current
      section and changes nothing else. */
  lemma {:induction false} EmitAllAppends(st: State, ws: Words)
    requires CanEmit(st)
    ensures EmitAll(st, ws).current == st.current
    ensures EmitAll(st, ws).table.Keys == st.table.Keys
    ensures CurrentWords(EmitAll(st, ws)) == CurrentWords(st) + ws
    ensures forall n | n in st.table && n != st.current.value :: EmitAll(st, ws).table[n] == st.table[n]
    decreases |ws|
  {
    if ws == [] {
      assert CurrentWords(st) + ws == CurrentWords(st);
    } else {
      var next := Emit(st, ws[0]);
      EmitAllAppends(next, ws[1..]);
      assert CurrentWords(next) == CurrentWords(st) + [ws[0]];
      assert CurrentWords(st) + [ws[0]] + ws[1..] == CurrentWords(st) + ws;
    }
  }

  /** In a new store whose own section is selected, n emits give that section
      length n, and reading index i gives the i-th emitted word. */
  lemma EmitsIntoNewStore(name: string, ws: Words)
    ensures CanEmit(Select(Init(name), name))
    ensures Len(EmitAll(Select(Init(name), name), ws).table, name) == |ws|
    ensures forall i | 0 <= i < |ws| :: Get(EmitAll(Select(Init(name), name), ws).table, name, i) == Some(ws[i])
  {
    var st := Select(Init(name), name);
    EmitAllAppends(st, ws);
    assert CurrentWords(st) == [];
  }

  /** `order` lists every section exactly once (the order in which the hash
      table happens to visit them is not fixed, so it is a parameter). */
  predicate IsEnumeration(order: seq<string>, t: Table)
  {
    multiset(order) == multiset(t.Keys)
  }

  /** Every section is bound to words, so each visit can read its length. */
  predicate AllHaveWords(t: Table)
  {
    forall n | n in t :: t[n].Some?
  }

  predicate Listed(t: Table, order: seq<string>)
  {
    forall k | 0 <= k < |order| :: SectionExists(t, order[k])
  }

  /** The words of the sections in `order`, one section after another. */
  function Flatten(t: Table, order: seq<string>): Words
    requires Listed(t, order)
  {
    if order == [] then [] else Flatten(t, order[..|order| - 1]) + t[order[|order| - 1]].value
  }

  /** The bytes `Umsections_write` writes when the table visits the sections
      in `order`. */
  function Image(t: Table, order: seq<string>): seq<bv8>
    requires Listed(t, order)
  {
    if order == [] then [] else Image(t, order[..|order| - 1]) + SectionBytes(t[order[|order| - 1]].value)
  }

  /** The output is the big-endian layout of all words in visiting order. */
  lemma {:induction false} ImageIsSectionBytes(t: Table, order: seq<string>)
    requires Listed(t, order)
    ensures Image(t, order) == SectionBytes(Flatten(t, order))
  {
    if order != [] {
      var init := order[..|order| - 1];
      ImageIsSectionBytes(t, init);
      SectionBytesAppend(Flatten(t, init), t[order[|order| - 1]].value);
    }
  }

  /** The output holds four bytes per word and decodes back to exactly the
      words of the sections, in visiting order. */
  lemma ImageDecodes(t: Table, order: seq<string>)
    requires Listed(t, order)
    ensures |Image(t, order)| == 4 * |Flatten(t, order)|
    ensures DecodeWords(Image(t, order)) == Flatten(t, order)
  {
    ImageIsSectionBytes(t, order);
    SectionBytesDecode(Flatten(t, order));
  }

  lemma {:induction false} FlattenAppend(t: Table, a: seq<string>, b: seq<string>)
    requires Listed(t, a) && Listed(t, b)
    ensures Listed(t, a + b)
    ensures Flatten(t, a + b) == Flatten(t, a) + Flatten(t, b)
    decreases |b|
  {
    if b == [] {
      assert a + b == a;
    } else {
      var b' := b[..|b| - 1];
      assert (a + b)[..|a + b| - 1] == a + b';
      FlattenAppend(t, a, b');
    }
  }

  lemma MultisetCancel(a: seq<string>, x: string, b: seq<string>, c: seq<string>)
    requires multiset(a + [x]) == multiset(b + [x] + c)
    ensures multiset(a) == multiset(b + c)
  {
    assert multiset(a + [x]) == multiset(a) + multiset{x};
    assert multiset(b + [x] + c) == multiset(b + c) + multiset{x} by {
      assert b + [x] + c == b + ([x] + c);
    }
    forall y ensures multiset(a)[y] == multiset(b + c)[y] {
      assert multiset(a + [x])[y] == multiset(a)[y] + multiset{x}[y];
      assert multiset(b + [x] + c)[y] == multiset(b + c)[y] + multiset{x}[y];
    }
  }

  /** Taking one section out of a visiting order removes exactly its words
      from the count. */
  lemma FlattenRemoveLength(t: Table, pre: seq<string>, x: string, post: seq<string>)
    requires Listed(t, pre) && SectionExists(t, x) && Listed(t, post)
    ensures Listed(t, pre + [x] + post) && Listed(t, pre + post)
    ensures |Flatten(t, pre + [x] + post)| == |Flatten(t, pre + post)| + |t[x].value|
  {
    assert Listed(t, [x]);
    FlattenAppend(t, pre, [x]);
    FlattenAppend(t, pre + [x], post);
    FlattenAppend(t, pre, post);
    assert [x][..0] == [];
  }

  /** The number of words visited does not depend on the visiting order. */
  lemma {:induction false} FlattenLengthPermutation(t: Table, o1: seq<string>, o2: seq<string>)
    requires Listed(t, o1) && Listed(t, o2)
    requires multiset(o1) == multiset(o2)
    ensures |Flatten(t, o1)| == |Flatten(t, o2)|
    decreases |o1|
  {
    if o1 == [] {
      assert |o2| == |multiset(o2)| == 0;
    } else {
      var x := o1[|o1| - 1];
      var o1' := o1[..|o1| - 1];
      assert o1 == o1' + [x];
      assert x in multiset(o2);
      var j :| 0 <= j < |o2| && o2[j] == x;
      var pre, post := o2[..j], o2[j + 1..];
      assert o2 == pre + [x] + post;
      MultisetCancel(o1', x, pre, post);
      assert Listed(t, pre) && SectionExists(t, x) && Listed(t, post);
      FlattenLengthPermutation(t, o1', pre + post);
      FlattenRemoveLength(t, pre, x, post);
    }
  }

  /** Any two visiting orders give outputs of the same size: four bytes per
      word in the store. */
  lemma ImageSizeOrderIndependent(t: Table, o1: seq<string>, o2: seq<string>)
    requires AllHaveWords(t) && IsEnumeration(o1, t) && IsEnumeration(o2, t)
    ensures Listed(t, o1) && Listed(t, o2)
    ensures |Image(t, o1)| == |Image(t, o2)| == 4 * |Flatten(t, o1)|
  {
    assert forall k | 0 <= k < |o1| :: o1[k] in multiset(o1);
    assert forall k | 0 <= k < |o2| :: o2[k] in multiset(o2);
    FlattenLengthPermutation(t, o1, o2);
    ImageDecodes(t, o1);
    ImageDecodes(t, o2);
  }

  /** The store object: `table` and `current` are updated in place; `errors`
      records, in order, every report handed to the error callback, whose
      return value the store never looks at. */
  class Store {
    var table: Table
    var current: Option<string>
    ghost var errors: seq<Error>

    ghost function Model(): State
      reads this
    {
      State(table, current)
    }

    /** `Umsections_new`: one section, `name`, with no words; no current
        section. */
    constructor (name: string)
      ensures Model() == Init(name) && errors == []
    {
      table := map[name := Some([])];
      current := None;
      errors := [];
    }

    /** `Umsections_section`. */
    method Section(s: string)
      modifies this`table, this`current
      ensures Model() == Select(old(Model()), s)
    {
      if !SectionExists(table, s) {
        table := table[s := None];
      }
      current := Some(s);
    }

    /** `Umsections_emit_word`. */
    method EmitWord(d: bv32)
      requires CanEmit(Model())
      modifies this`table
      ensures Model() == Emit(old(Model()), d)
    {
      var c := current.value;
      var words := table[c].value;
      table := table[c := Some(words + [d])];
    }

    /** `Umsections_length`: the word count, or 0 and one report when the
        section has no words. */
    method Length(name: string) returns (n: int)
      modifies this`errors
      ensures n == Len(table, name)
      ensures errors == old(errors) + LengthErrors(table, name)
      ensures forall e | e in LengthErrors(table, name) :: Message(e) == "Section " + name + " does NOT exist!\n"
    {
      n := 0;
      if !SectionExists(table, name) {
        errors := errors + [Missing(name)];
      } else {
        n := |table[name].value|;
      }
    }

    /** `Umsections_getword`: reports, then reads word `i`; `None` stands for
        the access that faults because there is no such word. */
    method GetWord(name: string, i: int) returns (w: Option<bv32>)
      modifies this`errors
      ensures w == Get(table, name, i)
      ensures w.Some? <==> InBounds(table, name, i)
      ensures errors == old(errors) + AccessErrors(table, name, i)
    {
      ghost var before := errors;
      if !SectionExists(table, name) {
        errors := errors + [Missing(name)];
      }
      assert errors == before + LengthErrors(table, name);
      var len := Length(name);
      if i >= len {
        errors := errors + [OutOfBounds];
      }
      assert errors == before + LengthErrors(table, name) + LengthErrors(table, name) + BoundErrors(table, name, i);
      if InBounds(table, name, i) {
        w := Some(table[name].value[i]);
      } else {
        w := None;
      }
    }

    /** `Umsections_putword`: reports, then overwrites word `i`; `ok` is false
        for the access that faults, which leaves the table as it was. */
    method PutWord(name: string, i: int, w: bv32) returns (ok: bool)
      modifies this`table, this`errors
      ensures ok == InBounds(old(table), name, i)
      ensures table == Put(old(table), name, i, w)
      ensures errors == old(errors) + AccessErrors(old(table), name, i)
    {
      ghost var before := errors;
      if !SectionExists(table, name) {
        errors := errors + [Missing(name)];
      }
      assert errors == before + LengthErrors(table, name);
      var len := Length(name);
      if i >= len {
        errors := errors + [OutOfBounds];
      }
      assert errors == before + LengthErrors(table, name) + LengthErrors(table, name) + BoundErrors(table, name, i);
      ok := InBounds(table, name, i);
      if ok {
        var words := table[name].value;
        table := table[name := Some(words[i := w])];
      }
    }

    /** `Umsections_write`: visits the sections in `order` and writes each
        with `write_section`. */
    method Write(order: seq<string>) returns (output: seq<bv8>)
      requires IsEnumeration(order, table) && AllHaveWords(table)
      ensures Listed(table, order)
      ensures output == Image(table, order)
      ensures |output| == 4 * |Flatten(table, order)|
      ensures DecodeWords(output) == Flatten(table, order)
    {
      assert forall k | 0 <= k < |order| :: order[k] in multiset(order);
      output := [];
      var k := 0;
      while k < |order|
        invariant 0 <= k <= |order|
        invariant output == Image(table, order[..k])
      {
        output := WriteSection(table[order[k]].value, output);
        assert order[..k + 1][..k] == order[..k];
        k := k + 1;
      }
      assert order[..|order|] == order;
      ImageDecodes(table, order);
    }
  }
}
