/** The configuration handle: the growing entry pool, the cursor, and the changes made in place. */
module IniConfig {
  import opened CText
  import opened IniText
  import opened IniStore
  import opened IniPool
  import opened IniFile

  datatype Kind = Nothing | Section | Define | Continue

  /** What `cfg_write` does to the entries, by which of key and value are given. */
  function Changed(es: seq<Entry>, sec: string, id: Option<string>, value: Option<string>): seq<Entry> {
    if id.None? then DeleteSection(es, sec)
    else if value.None? then DeleteKey(es, sec, id.value)
    else Write(es, sec, id.value, value.value)
  }

  /** The change stays inside the pool. */
  predicate ChangeStays(es: seq<Entry>, p: Pool, sec: string, id: Option<string>, value: Option<string>) {
    if id.None? then DeleteStays(es, sec)
    else value.Some? && Inserts(es, sec, id.value) ==> InsertStays(p, KeyPlace(es, sec, id.value))
  }

  /** Whatever `cfg_write` does, lookups in other sections and of other keys are as before. */
  lemma ChangedFrame(es: seq<Entry>, sec: string, id: Option<string>, value: Option<string>, other: string, key: string)
    requires id.Some? ==> PlainKey(id.value)
    requires other != sec || (id.Some? && key != id.value)
    ensures Lookup(Changed(es, sec, id, value), other, key) == Lookup(es, other, key)
  {
    hide Write, DeleteKey, DeleteSection, Lookup, PlainKey;
    if id.None? {
      DeleteSectionFrame(es, sec, other, key);
    } else if value.None? {
      DeleteKeyFrame(es, sec, id.value, other, key);
    } else {
      WriteFrame(es, sec, id.value, value.value, other, key);
    }
  }

  /** Entries that the cursor passes without stopping. */
  predicate Silent(e: Entry) { e.section.None? && e.value.None? }

  predicate Silence(es: seq<Entry>, a: nat, b: nat) {
    a <= b <= |es| && forall i | a <= i < b :: Silent(es[i])
  }

  lemma {:induction false} SilentRun(es: seq<Entry>, c: nat, c': nat, sec: string, id: string)
    requires Silence(es, c, c')
    ensures SearchAll(Before, es[..c'], sec, id) == SearchAll(Before, es[..c], sec, id)
    decreases c'
  {
    if c < c' {
      assert es[..c'] == es[..c' - 1] + [es[c' - 1]];
      hide SearchAll;
      SearchConcat(Before, es[..c' - 1], [es[c' - 1]], sec, id);
      SearchOne(SearchAll(Before, es[..c' - 1], sec, id), es[c' - 1], sec, id);
      SilentRun(es, c, c' - 1, sec, id);
    }
  }

  /** One stop of the cursor: silent entries up to the entry before `c'`, which is looked at. */
  lemma CursorStep(es: seq<Entry>, c: nat, c': nat, sec: string, id: string)
    requires c < c' <= |es| && Silence(es, c, c' - 1)
    ensures SearchAll(Before, es[..c'], sec, id) ==
            Advance(SearchAll(Before, es[..c], sec, id), es[c' - 1], sec, id)
  {
    hide SearchAll, Advance, Silence;
    SilentRun(es, c, c' - 1, sec, id);
    assert es[..c'] == es[..c' - 1] + [es[c' - 1]];
    SearchConcat(Before, es[..c' - 1], [es[c' - 1]], sec, id);
    SearchOne(SearchAll(Before, es[..c' - 1], sec, id), es[c' - 1], sec, id);
  }

  /** A search that is over stays over. */
  lemma SearchOver(es: seq<Entry>, c: nat, sec: string, id: string)
    requires c <= |es|
    ensures var st := SearchAll(Before, es[..c], sec, id);
            st.Found? || st.Stopped? ==> SearchAll(Before, es, sec, id) == st
  {
    hide SearchAll;
    Split2(es, c);
    SearchConcat(Before, es[..c], es[c..], sec, id);
    var st := SearchAll(Before, es[..c], sec, id);
    FoundStays(if st.Found? then st.value else "", es[c..], sec, id);
  }

  class Config {
    var entries: array<Entry>
    var numEntries: nat
    var maxEntries: nat
    ghost var copied: nat
    var dirty: bool

    var cursor: nat
    var eof: bool
    var kind: Kind
    var section: Option<string>
    var id: Option<string>
    var value: Option<string>

    ghost predicate Valid()
      reads this
    {
      entries.Length == maxEntries && numEntries <= maxEntries
    }

    ghost function Entries(): (es: seq<Entry>)
      requires Valid()
      reads this, entries
      ensures |es| == numEntries
    {
      entries[..numEntries]
    }

    /** The pool's numbers; the array stands for its generation. */
    ghost function PoolState(): Pool
      reads this
    {
      Pool(0, numEntries, maxEntries)
    }

    /** The pool was filled by single allocations only. */
    ghost predicate Packed()
      reads this
    {
      maxEntries == PoolSize(numEntries) && copied == Copied(numEntries)
    }

    constructor ()
      ensures Valid() && fresh(entries) && Entries() == [] && Packed() && !dirty
    {
      entries := new Entry[0];
      numEntries, maxEntries, copied, dirty := 0, 0, 0, false;
      cursor, eof, kind := 0, false, Nothing;
      section, id, value := None, None, None;
    }

    // ----- the pool -----

    /** `_cfg_poolalloc`: makes room behind the entries, which keep their values and order. */
    method PoolAlloc(count: nat)
      requires Valid()
      modifies this`entries, this`numEntries, this`maxEntries, this`copied
      ensures Valid() && numEntries == old(numEntries) + count
      ensures entries[..old(numEntries)] == old(Entries())
      ensures entries == old(entries) || fresh(entries)
      ensures var p := Allocated(old(PoolState()), count);
              numEntries == p.num && maxEntries == p.max && (entries == old(entries) <==> p.generation == 0)
      ensures copied ==
              old(copied) + if old(numEntries) + count <= old(maxEntries) then 0 else old(numEntries)
    {
      if numEntries + count > maxEntries {
        var newMax := Grown(maxEntries, count);
        var newBase := new Entry[newMax];
        forall i | 0 <= i < numEntries { newBase[i] := entries[i]; }
        copied := copied + numEntries;
        assert newBase[..numEntries] == entries[..numEntries];
        entries, maxEntries := newBase, newMax;
      }
      numEntries := numEntries + count;
    }

    /** `cfg_storeentry`. */
    method StoreEntry(e: Entry)
      requires Valid()
      modifies this`entries, this`numEntries, this`maxEntries, this`copied, entries
      ensures Valid() && Entries() == old(Entries()) + [e]
      ensures entries == old(entries) || fresh(entries)
      ensures old(Packed()) ==> Packed()
    {
      hide PoolSize, Copied, Grown;
      OneAllocated(PoolState());
      PoolAlloc(1);
      ghost var es := entries[..numEntries - 1];
      entries[numEntries - 1] := e;
      assert entries[..numEntries] == es + [e];
    }

    /** `memmove` of `count` entries from `src` to `dst`. */
    method MoveEntries(dst: nat, src: nat, count: nat)
      requires src + count <= entries.Length && dst + count <= entries.Length
      modifies entries
      ensures entries[dst..dst + count] == old(entries[src..src + count])
      ensures forall i | 0 <= i < entries.Length && !(dst <= i < dst + count) :: entries[i] == old(entries[i])
    {
      forall i | 0 <= i < count { entries[dst + i] := entries[src + i]; }
    }

    // ----- lookup -----

    method Rewind()
      modifies this`eof, this`kind, this`cursor
      ensures cursor == 0 && !eof && kind == Nothing
    {
      eof, kind, cursor := false, Nothing, 0;
    }

    /** `cfg_nextentry`: stops at the next section or value and copies it to the handle. */
    method NextEntry() returns (ret: int)
      requires Valid() && cursor <= numEntries
      modifies this`cursor, this`eof, this`kind, this`section, this`id, this`value
      ensures ret == 0 || ret == -1
      ensures old(cursor) <= cursor <= numEntries
      ensures ret == 0 ==> !old(eof) && !eof && old(cursor) < cursor && !Silent(entries[cursor - 1])
      ensures ret == 0 ==> forall i | old(cursor) <= i < cursor - 1 :: Silent(entries[i])
      ensures ret == 0 ==>
                var e := entries[cursor - 1];
                if e.section.Some? then kind == Section && section == e.section && id == None && value == None
                else section == old(section) && value == e.value && id == e.id &&
                     kind == if e.id.Some? then Define else Continue
      ensures ret == -1 && !old(eof) ==> eof && forall i | old(cursor) <= i < numEntries :: Silent(entries[i])
    {
      if eof { return -1; }
      kind, id, value := Nothing, None, None;
      while true
        invariant old(cursor) <= cursor <= numEntries && !eof && section == old(section)
        invariant kind == Nothing && id == None && value == None
        invariant forall i | old(cursor) <= i < cursor :: Silent(entries[i])
        decreases numEntries - cursor
      {
        if cursor >= numEntries {
          eof := true;
          return -1;
        }
        var e := entries[cursor];
        cursor := cursor + 1;
        if e.section.Some? {
          section, kind := e.section, Section;
          return 0;
        }
        if e.value.Some? {
          value := e.value;
          if e.id.Some? {
            id, kind := e.id, Define;
          } else {
            kind := Continue;
          }
          return 0;
        }
      }
    }

    /** `cfg_find` for a key: whether the lookup succeeds and the value it leaves on the handle. */
    method FindKey(sec: string, key: string) returns (ret: int)
      requires Valid()
      modifies this`cursor, this`eof, this`kind, this`section, this`id, this`value
      ensures ret == (if Lookup(Entries(), sec, key).Some? then 0 else -1)
      ensures ret == 0 ==> value == Lookup(Entries(), sec, key)
    {
      hide SearchAll, Defines, Silence, Silent, Shows;
      ghost var es := Entries();
      var atsection := false;
      Rewind();
      SearchNothing(sec, key);
      assert es[..0] == [];
      ghost var c := cursor;
      var next := NextOf(es);
      while next == 0
        invariant next == 0 || next == -1
        invariant c <= cursor <= numEntries
        invariant SearchAll(Before, es[..c], sec, key) == if atsection then Inside else Before
        invariant next == 0 ==> !eof && c < cursor && Silence(es, c, cursor - 1) && Shows(es[cursor - 1])
        invariant next == -1 ==> Silence(es, c, numEntries)
        decreases numEntries - c
      {
        CursorStep(es, c, cursor, sec, key);
        SearchOver(es, cursor, sec, key);
        EntryMeaning(es[cursor - 1], key);
        ShownMeaning(es[cursor - 1]);
        if atsection {
          if kind == Section {
            return -1;
          } else if kind == Define {
            if RemoveQuotes(id.value) == Some(key) { return 0; }
          }
        } else if kind == Section && section == Some(sec) {
          atsection := true;
        }
        c := cursor;
        next := NextOf(es);
      }
      SilentRun(es, c, numEntries, sec, key);
      assert es[..numEntries] == es;
      return -1;
    }

    /** `cfg_nextentry`, in terms of the list of entries. */
    method NextOf(ghost es: seq<Entry>) returns (next: int)
      requires Valid() && cursor <= numEntries && es == Entries() && !eof
      modifies this`cursor, this`eof, this`kind, this`section, this`id, this`value
      ensures next == 0 || next == -1
      ensures old(cursor) <= cursor <= numEntries
      ensures next == 0 ==>
                !eof && old(cursor) < cursor && Silence(es, old(cursor), cursor - 1) && Shows(es[cursor - 1])
      ensures next == -1 ==> Silence(es, old(cursor), numEntries)
    {
      next := NextEntry();
      assert forall i | 0 <= i < numEntries :: es[i] == entries[i];
    }

    lemma ShownMeaning(e: Entry)
      requires Shows(e)
      ensures kind == Section <==> e.section.Some?
      ensures e.section.Some? ==> section == e.section
      ensures e.section.None? ==> value == e.value && id == e.id && e.value.Some?
      ensures e.section.None? ==> (kind == Define <==> e.id.Some?)
    {
    }

    /** What the handle shows of the entry the cursor stopped at. */
    ghost predicate Shows(e: Entry)
      reads this
    {
      if e.section.Some? then kind == Section && section == e.section
      else e.value.Some? && value == e.value && id == e.id && kind == if e.id.Some? then Define else Continue
    }

    // ----- change -----

    /** The loop that looks for the section. */
    method LocateSection(sec: string) returns (s: nat)
      requires Valid()
      ensures s == SectionIndex(Entries(), sec)
    {
      hide SectionIndex;
      s := 0;
      ghost var es := Entries();
      while s < numEntries
        invariant s <= numEntries
        invariant NotNamed(es, s, sec)
      {
        if entries[s].section == Some(sec) { break; }
        s := s + 1;
      }
      FirstIsIndex(es, s, sec);
    }

    /** The loop through a section: the key's place, and whether it stopped at the key. */
    method LocateKey(s: nat, key: string) returns (k: nat, found: bool)
      requires Valid() && s < numEntries
      ensures var n := NextSection(Entries(), s + 1);
              k == KeyIndex(Entries(), s + 1, n, key) && (found <==> k < n)
    {
      hide NextSection, KeyIndex;
      ghost var es := Entries();
      k, found := s + 1, false;
      while k < numEntries
        invariant s < k <= numEntries && !found
        invariant SameBlock(es, s + 1, k) && NotKeyed(es, s + 1, k, key)
      {
        if entries[k].section.Some? { break; }
        if entries[k].id == Some(key) {
          found := true;
          break;
        }
        k := k + 1;
      }
      PlaceIsIndex(es, s + 1, k, key);
    }

    /** The upward loop over block comments; -1 where it leaves the array. */
    method BlockUp(k: nat) returns (e: int)
      requires Valid() && k <= numEntries
      ensures e == ScanUp(Entries(), k - 1)
    {
      hide IsBlockComment;
      ghost var es := Entries();
      e := k - 1;
      while e >= 0 && IsBlockComment(entries[e])
        invariant -1 <= e < k && ScanUp(es, e) == ScanUp(es, k - 1)
        decreases e + 1
      {
        assert es[e] == entries[e];
        e := e - 1;
      }
      assert e >= 0 ==> es[e] == entries[e];
    }

    /** Removes the entries from `b` up to `e`. */
    method CutOut(b: nat, e: nat)
      requires Valid() && b <= e <= numEntries
      modifies this`numEntries, this`dirty, entries
      ensures Valid() && dirty && Entries() == old(Entries()[..b] + Entries()[e..])
      ensures numEntries == old(numEntries) - (e - b)
    {
      ghost var es := Entries();
      assert entries[e..numEntries] == es[e..];
      MoveEntries(b, e, numEntries - e);
      numEntries := numEntries - (e - b);
      dirty := true;
      assert entries[..b] == es[..b];
      assert entries[..numEntries] == entries[..b] + entries[b..numEntries];
    }

    /**
      Puts a new key in front of the section at `k`. The pointer to that entry is taken before the
      allocation, and the block moved up is one entry longer than needed. Where this leaves the
      pool the C code writes to memory that is not its own; the model stops there.
    */
    method InsertAt(k: nat, key: string, val: string) returns (stays: bool)
      requires Valid() && k < numEntries
      modifies this`entries, this`numEntries, this`maxEntries, this`copied, this`dirty, entries
      ensures stays <==> InsertStays(old(PoolState()), k)
      ensures Valid()
      ensures stays ==> dirty && entries == old(entries) && maxEntries == old(maxEntries)
      ensures stays ==> Entries() == old(Entries()[..k] + [NewKey(key, val)] + Entries()[k..])
    {
      ghost var es := Entries();
      var base := entries;
      PoolAlloc(1);
      stays := base == entries && k + 1 + (numEntries - k) <= base.Length;
      if !stays { return; }
      assert entries[k..numEntries - 1] == es[k..];
      MoveEntries(k + 1, k, numEntries - k);
      entries[k] := NewKey(key, val);
      dirty := true;
      assert entries[..k] == es[..k];
      assert entries[k + 1..numEntries] == es[k..] by {
        assert entries[k + 1..numEntries + 1][..numEntries - 1 - k] == entries[k + 1..numEntries];
      }
      assert entries[..numEntries] == entries[..k] + [entries[k]] + entries[k + 1..numEntries];
    }

    /** `cfg_write` with key and value. */
    method WriteKey(sec: string, key: string, val: string) returns (stays: bool)
      requires Valid()
      modifies this`entries, this`numEntries, this`maxEntries, this`copied, this`dirty, entries
      ensures stays <==> ChangeStays(old(Entries()), old(PoolState()), sec, Some(key), Some(val))
      ensures Valid() && (stays ==> dirty && Entries() == Write(old(Entries()), sec, key, val))
    {
      hide SectionIndex, NextSection, KeyIndex, KeyPlace, Write, Inserts, NotNamed, SameBlock, NotKeyed, BlockComments;
      ghost var es := Entries();
      var s := LocateSection(sec);
      WriteBy(es, sec, key, val);
      stays := true;
      if s == numEntries {
        StoreEntry(NewSection(sec));
        StoreEntry(NewKey(key, val));
        dirty := true;
        return;
      }
      var k, found := LocateKey(s, key);
      if found {
        entries[k] := entries[k].(value := Some(val));
        dirty := true;
        assert Entries() == es[k := es[k].(value := Some(val))];
      } else if k < numEntries {
        stays := InsertAt(k, key, val);
      } else {
        StoreEntry(NewKey(key, val));
        dirty := true;
      }
    }

    /** `cfg_write` with a key and no value. */
    method DeleteEntry(sec: string, key: string)
      requires Valid()
      modifies this`numEntries, this`dirty, entries
      ensures Valid() && Entries() == DeleteKey(old(Entries()), sec, key)
      ensures dirty <==> old(dirty) || numEntries != old(numEntries)
    {
      hide SectionIndex, NextSection, KeyIndex, DeleteKey, NotNamed, SameBlock, NotKeyed, ScanUp;
      var s := LocateSection(sec);
      if s == numEntries {
        NoKey(Entries(), sec, key, s);
        return;
      }
      var k, found := LocateKey(s, key);
      if !found {
        NoKey(Entries(), sec, key, s);
        return;
      }
      var e := BlockUp(k);
      DeleteKeyBy(Entries(), sec, key, s, k, e);
      CutOut(e + 1, k + 1);
    }

    /** The loop to the next section. */
    method LocateEnd(s: nat) returns (n: nat)
      requires Valid() && s < numEntries
      ensures n == NextSection(Entries(), s + 1)
    {
      hide NextSection;
      ghost var es := Entries();
      n := s + 1;
      while n < numEntries && entries[n].section.None?
        invariant s < n <= numEntries
        invariant SameBlock(es, s + 1, n)
      {
        assert es[n] == entries[n];
        n := n + 1;
      }
      EndIsNext(es, s + 1, n);
    }

    /** `cfg_write` with neither key nor value; it stops where an upward scan leaves the array. */
    method RemoveSection(sec: string) returns (stays: bool)
      requires Valid()
      modifies this`numEntries, this`dirty, entries
      ensures stays <==> DeleteStays(old(Entries()), sec)
      ensures Valid() && Entries() == if stays then DeleteSection(old(Entries()), sec) else old(Entries())
      ensures dirty <==> old(dirty) || numEntries != old(numEntries)
    {
      hide SectionIndex, NextSection, DeleteStays, DeleteSection, NotNamed, SameBlock, ScanUp;
      var s := LocateSection(sec);
      if s == numEntries {
        NoSection(Entries(), sec);
        return true;
      }
      var n := LocateEnd(s);
      var e := BlockUp(n);
      var b := BlockUp(s);
      DeleteSectionBy(Entries(), sec, s, n, b, e);
      if b < 0 { return false; }
      CutOut(b + 1, e + 1);
      return true;
    }

    /** `cfg_write`: which change it makes, and what it leaves alone. */
    method Change(sec: string, key: Option<string>, val: Option<string>) returns (stays: bool)
      requires Valid()
      modifies this`entries, this`numEntries, this`maxEntries, this`copied, this`dirty, entries
      ensures stays <==> ChangeStays(old(Entries()), old(PoolState()), sec, key, val)
      ensures Valid() && (stays ==> Entries() == Changed(old(Entries()), sec, key, val))
      ensures stays && (key.Some? ==> PlainKey(key.value)) ==>
                forall other, k | other != sec || (key.Some? && k != key.value) ::
                  Lookup(Entries(), other, k) == Lookup(old(Entries()), other, k)
    {
      hide Write, DeleteKey, DeleteSection, DeleteStays, Inserts, InsertStays, KeyPlace, Lookup, PlainKey;
      ghost var es := Entries();
      stays := true;
      if key.None? {
        stays := RemoveSection(sec);
      } else if val.None? {
        DeleteEntry(sec, key.value);
      } else {
        stays := WriteKey(sec, key.value, val.value);
      }
      if stays && (key.Some? ==> PlainKey(key.value)) {
        forall other, k | other != sec || (key.Some? && k != key.value)
          ensures Lookup(Entries(), other, k) == Lookup(es, other, k)
        {
          ChangedFrame(es, sec, key, val, other, k);
        }
      }
    }
  }

  /** A single allocation is one more step of filling the pool. */
  lemma OneAllocated(p: Pool)
    requires p.num <= p.max
    ensures p.max == PoolSize(p.num) ==> Allocated(p, 1).max == PoolSize(p.num + 1)
    ensures p.max == PoolSize(p.num) ==>
              Copied(p.num + 1) == Copied(p.num) + if p.num + 1 <= p.max then 0 else p.num
  {
  }

  /** The cases of a write, by what the loops find. */
  lemma WriteBy(es: seq<Entry>, sec: string, key: string, val: string)
    ensures var s := SectionIndex(es, sec);
            if s == |es| then
              !Inserts(es, sec, key) && Write(es, sec, key, val) == es + [NewSection(sec)] + [NewKey(key, val)]
            else
              (var n := NextSection(es, s + 1);
               var k := KeyIndex(es, s + 1, n, key);
               && KeyPlace(es, sec, key) == k && (Inserts(es, sec, key) <==> n == k < |es|)
               && Write(es, sec, key, val) ==
                  if k < n then es[k := es[k].(value := Some(val))]
                  else if k < |es| then es[..k] + [NewKey(key, val)] + es[k..]
                  else es + [NewKey(key, val)])
  {
    hide SectionIndex, NextSection, KeyIndex;
    var s := SectionIndex(es, sec);
    if s == |es| {
      assert es + [NewSection(sec)] + [NewKey(key, val)] == es + [NewSection(sec), NewKey(key, val)];
    } else {
      var k := KeyIndex(es, s + 1, NextSection(es, s + 1), key);
      if k == |es| { assert es[..k] + [NewKey(key, val)] + es[k..] == es + [NewKey(key, val)]; }
    }
  }

  /** The deletion of a key, by where the upward scan stops. */
  lemma DeleteKeyBy(es: seq<Entry>, sec: string, key: string, s: nat, k: nat, e: int)
    requires s == SectionIndex(es, sec) < |es| && k == KeyIndex(es, s + 1, NextSection(es, s + 1), key)
    requires k < NextSection(es, s + 1) && e == ScanUp(es, k - 1)
    ensures s <= e < k && DeleteKey(es, sec, key) == Without(es, e + 1, k + 1)
  {
    hide SectionIndex, NextSection, KeyIndex, BlockStart, ScanUp, NotNamed, SameBlock, NotKeyed, BlockComments;
    hide IsBlockComment, DeleteKey, Without;
    ScanUpStops(es, s, k);
    ScanUpExact(es, k);
    DeleteKeyCut(es, sec, key, s, k, e + 1);
  }

  lemma DeleteKeyCut(es: seq<Entry>, sec: string, key: string, s: nat, k: nat, b: nat)
    requires s == SectionIndex(es, sec) < |es| && k == KeyIndex(es, s + 1, NextSection(es, s + 1), key)
    requires k < NextSection(es, s + 1) && b == BlockStart(es, k)
    ensures b <= k && DeleteKey(es, sec, key) == Without(es, b, k + 1)
  {
    hide SectionIndex, NextSection, KeyIndex, BlockStart, NotNamed, SameBlock, NotKeyed, BlockComments;
    hide IsBlockComment, Without;
  }

  lemma NoKey(es: seq<Entry>, sec: string, key: string, s: nat)
    requires s == SectionIndex(es, sec)
    requires s < |es| ==> KeyIndex(es, s + 1, NextSection(es, s + 1), key) == NextSection(es, s + 1)
    ensures DeleteKey(es, sec, key) == es
  {
    hide SectionIndex, NextSection, KeyIndex, BlockStart, NotNamed, SameBlock, NotKeyed;
  }

  /** The deletion of a section, by where the two upward scans stop. */
  lemma DeleteSectionBy(es: seq<Entry>, sec: string, s: nat, n: nat, b: int, e: int)
    requires s == SectionIndex(es, sec) < |es| && n == NextSection(es, s + 1)
    requires b == ScanUp(es, s - 1) && e == ScanUp(es, n - 1)
    ensures b < s <= e < n && (DeleteStays(es, sec) <==> b >= 0)
    ensures DeleteSection(es, sec) == es[..b + 1] + es[e + 1..]
  {
    hide SectionIndex, NextSection, BlockStart, ScanUp, NotNamed, SameBlock, BlockComments, IsBlockComment;
    hide DeleteSection;
    ScanUpStops(es, s, n);
    ScanUpExact(es, n);
    ScanUpExact(es, s);
    DeleteSectionCut(es, sec, s, b + 1, e + 1);
  }

  lemma DeleteSectionCut(es: seq<Entry>, sec: string, s: nat, a: nat, c: nat)
    requires s == SectionIndex(es, sec) < |es|
    requires a == BlockStart(es, s) && c == BlockStart(es, NextSection(es, s + 1))
    ensures DeleteSection(es, sec) == es[..a] + es[c..]
  {
    hide SectionIndex, NextSection, BlockStart, NotNamed, SameBlock, BlockComments, IsBlockComment;
  }

  lemma NoSection(es: seq<Entry>, sec: string)
    requires SectionIndex(es, sec) == |es|
    ensures DeleteStays(es, sec) && DeleteSection(es, sec) == es
  {
    hide SectionIndex;
  }

  lemma {:induction false} FirstIsIndex(es: seq<Entry>, s: nat, sec: string)
    requires s <= |es| && NotNamed(es, s, sec)
    requires s < |es| ==> es[s].section == Some(sec)
    ensures s == SectionIndex(es, sec)
  {
    hide SectionIndex;
  }

  lemma PlaceIsIndex(es: seq<Entry>, from: nat, k: nat, key: string)
    requires from <= k <= |es| && SameBlock(es, from, k) && NotKeyed(es, from, k, key)
    requires k < |es| ==> es[k].section.Some? || es[k].id == Some(key)
    ensures var n := NextSection(es, from);
            k == KeyIndex(es, from, n, key) && (k < n <==> k < |es| && es[k].section.None?)
  {
    hide NextSection, KeyIndex;
    var n := NextSection(es, from);
    var i := KeyIndex(es, from, n, key);
    assert k <= n;
  }

  lemma EndIsNext(es: seq<Entry>, from: nat, n: nat)
    requires from <= n <= |es| && SameBlock(es, from, n)
    requires n < |es| ==> es[n].section.Some?
    ensures n == NextSection(es, from)
  {
    hide NextSection;
  }

  lemma SearchNothing(sec: string, id: string)
    ensures SearchAll(Before, [], sec, id) == Before
  {
  }

  lemma EntryMeaning(e: Entry, id: string)
    ensures Defines(e, id) <==>
            e.section.None? && e.value.Some? && e.id.Some? && RemoveQuotes(e.id.value) == Some(id)
  {
  }
}
