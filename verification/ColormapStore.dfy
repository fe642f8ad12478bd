/** ImPlotColormapData: all colormaps in flattened arrays, with the interpolation tables as a cache. */
module ColormapStore {
  import opened Options
  import opened Numbers
  import opened PackedColor
  import opened ColormapLerp

  /** A colormap as the caller sees it. */
  datatype Colormap = Colormap(keys: seq<U32>, qual: bool)

  ghost predicate NonEmpty(maps: seq<Colormap>) {
    forall i :: 0 <= i < |maps| ==> |maps[i].keys| > 0
  }

  // ---------- The layout a list of colormaps determines ----------

  ghost function Concat<T>(parts: seq<seq<T>>): seq<T> {
    if |parts| == 0 then [] else Concat(parts[..|parts| - 1]) + parts[|parts| - 1]
  }

  ghost function Sizes<T>(parts: seq<seq<T>>): seq<int> {
    seq(|parts|, i requires 0 <= i < |parts| => |parts[i]|)
  }

  /** Each part starts where the parts before it end. */
  ghost function Offsets<T>(parts: seq<seq<T>>): seq<int> {
    seq(|parts|, i requires 0 <= i < |parts| => |Concat(parts[..i])|)
  }

  ghost function KeyParts(maps: seq<Colormap>): seq<seq<U32>> {
    seq(|maps|, i requires 0 <= i < |maps| => maps[i].keys)
  }

  ghost function QualsOf(maps: seq<Colormap>): seq<bool> {
    seq(|maps|, i requires 0 <= i < |maps| => maps[i].qual)
  }

  ghost function TableParts(maps: seq<Colormap>): seq<seq<U32>>
    requires NonEmpty(maps)
  {
    seq(|maps|, i requires 0 <= i < |maps| => TableOf(maps[i].keys, maps[i].qual))
  }

  lemma AppendPart<T>(parts: seq<seq<T>>, part: seq<T>)
    ensures Concat(parts + [part]) == Concat(parts) + part
    ensures Sizes(parts + [part]) == Sizes(parts) + [|part|]
    ensures Offsets(parts + [part]) == Offsets(parts) + [|Concat(parts)|]
  {
    var all := parts + [part];
    assert all[..|parts|] == parts;
    forall i | 0 <= i < |parts| ensures all[..i] == parts[..i] {
    }
  }

  /** A part can be read back from the concatenation by its offset and size. */
  lemma {:induction false} PartAt<T>(parts: seq<seq<T>>, i: nat)
    requires i < |parts|
    ensures var off := |Concat(parts[..i])|;
            off + |parts[i]| <= |Concat(parts)| && Concat(parts)[off..off + |parts[i]|] == parts[i]
    decreases |parts|
  {
    var front := parts[..|parts| - 1];
    if i < |parts| - 1 {
      PartAt(front, i);
      assert front[..i] == parts[..i];
    }
  }

  /** Offsets are prefix sums of sizes. */
  lemma OffsetsArePrefixSums<T>(parts: seq<seq<T>>, i: nat)
    requires i < |parts|
    ensures Offsets(parts)[0] == 0
    ensures i + 1 < |parts| ==> Offsets(parts)[i + 1] == Offsets(parts)[i] + Sizes(parts)[i]
    ensures i + 1 == |parts| ==> |Concat(parts)| == Offsets(parts)[i] + Sizes(parts)[i]
  {
    assert parts[..i + 1][..i] == parts[..i];
    assert parts[..|parts|] == parts;
  }

  lemma MoreKeys(maps: seq<Colormap>, m: Colormap)
    ensures KeyParts(maps + [m]) == KeyParts(maps) + [m.keys]
  {
  }

  lemma NoTables(maps: seq<Colormap>)
    requires NonEmpty(maps)
    ensures var parts := TableParts(maps[..0]); Concat(parts) == [] && Sizes(parts) == [] && Offsets(parts) == []
  {
  }

  lemma NextTable(maps: seq<Colormap>, n: nat)
    requires NonEmpty(maps) && n < |maps|
    ensures TableParts(maps[..n + 1]) == TableParts(maps[..n]) + [TableOf(maps[n].keys, maps[n].qual)]
  {
    hide TableOf;
  }

  /** Changing one element of one part changes one element of the concatenation and no offset. */
  lemma {:induction false} UpdatePart<T>(parts: seq<seq<T>>, i: nat, j: nat, x: T)
    requires i < |parts| && j < |parts[i]|
    ensures var parts' := parts[i := parts[i][j := x]];
            var at := |Concat(parts[..i])| + j;
            at < |Concat(parts)| && Concat(parts') == Concat(parts)[at := x]
    decreases |parts|
  {
    var last := |parts| - 1;
    var front, parts' := parts[..last], parts[i := parts[i][j := x]];
    PartAt(parts, i);
    if i < last {
      UpdatePart(front, i, j, x);
      assert front[..i] == parts[..i];
      assert parts'[..last] == front[i := front[i][j := x]];
    } else {
      assert parts'[..last] == front;
    }
  }

  lemma {:induction false} SameSizesSameOffsets<T>(a: seq<seq<T>>, b: seq<seq<T>>)
    requires Sizes(a) == Sizes(b)
    ensures |Concat(a)| == |Concat(b)| && Offsets(a) == Offsets(b)
    decreases |a|
  {
    assert |Sizes(a)| == |Sizes(b)|;
    forall i | 0 <= i < |a| ensures |a[i]| == |b[i]| {
      assert Sizes(a)[i] == Sizes(b)[i];
    }
    if |a| > 0 {
      var m := |a| - 1;
      assert Sizes(a[..m]) == Sizes(b[..m]);
      SameSizesSameOffsets(a[..m], b[..m]);
      forall i | 0 <= i < m ensures |Concat(a[..i])| == |Concat(b[..i])| {
        assert a[..m][..i] == a[..i] && b[..m][..i] == b[..i];
        assert Offsets(a[..m])[i] == Offsets(b[..m])[i];
      }
    }
  }

  // ---------- Names ----------

  /** C strings: no character is the terminator, and the text up to the terminator is read back. */
  predicate IsCString(s: string) {
    '\0' !in s
  }

  function ReadCString(text: string, off: nat): string
    decreases |text| - off
  {
    if off >= |text| || text[off] == '\0' then "" else [text[off]] + ReadCString(text, off + 1)
  }

  function Terminated(names: seq<string>): seq<string> {
    seq(|names|, i requires 0 <= i < |names| => names[i] + "\0")
  }

  lemma {:induction false} ReadBack(text: string, off: nat, s: string)
    requires IsCString(s) && off + |s| < |text| && text[off..off + |s| + 1] == s + "\0"
    ensures ReadCString(text, off) == s
    decreases |s|
  {
    var part := text[off..off + |s| + 1];
    if s == "" {
      assert part[0] == '\0';
    } else {
      assert part[0] == s[0] && text[off] in s;
      assert text[off + 1..off + |s| + 1] == part[1..] == s[1..] + "\0";
      assert IsCString(s[1..]);
      ReadBack(text, off + 1, s[1..]);
      assert s == [s[0]] + s[1..];
    }
  }

  /** A name is read back from the text by its offset. */
  lemma NameAt(names: seq<string>, i: nat)
    requires i < |names| && IsCString(names[i])
    ensures var parts := Terminated(names);
            Offsets(parts)[i] >= 0 && ReadCString(Concat(parts), Offsets(parts)[i]) == names[i]
  {
    var parts := Terminated(names);
    PartAt(parts, i);
    ReadBack(Concat(parts), |Concat(parts[..i])|, names[i]);
  }

  lemma MoreNames(names: seq<string>, name: string)
    ensures Terminated(names + [name]) == Terminated(names) + [name + "\0"]
  {
  }

  // ---------- The store ----------

  class ColormapData {
    var Keys: seq<U32>
    var KeyCounts: seq<int>
    var KeyOffsets: seq<int>
    var Tables: seq<U32>
    var TableSizes: seq<int>
    var TableOffsets: seq<int>
    var Text: string
    var TextOffsets: seq<int>
    var Quals: seq<bool>
    /** ImGuiStorage: indices by the hash of the name. */
    var Map: map<int, int>
    var Count: int
    const hash: string -> int

    /** The colormaps held, in the order they were added, and their names. */
    ghost var Maps: seq<Colormap>
    ghost var Names: seq<string>

    /** The key arrays are the concatenation of the keys of all maps. */
    ghost predicate KeysValid()
      reads this`Maps, this`Keys, this`KeyCounts, this`KeyOffsets, this`Quals, this`Count
    {
      var parts := KeyParts(Maps);
      && NonEmpty(Maps) && Count == |Maps|
      && Keys == Concat(parts) && KeyCounts == Sizes(parts) && KeyOffsets == Offsets(parts)
      && Quals == QualsOf(Maps)
    }

    /** The tables are those of the first n maps. */
    ghost predicate TablesOfFirst(n: nat)
      reads this`Maps, this`Tables, this`TableSizes, this`TableOffsets
      requires n <= |Maps| && NonEmpty(Maps)
    {
      var parts := TableParts(Maps[..n]);
      Tables == Concat(parts) && TableSizes == Sizes(parts) && TableOffsets == Offsets(parts)
    }

    ghost predicate Valid()
      reads this
    {
      KeysValid() && TablesOfFirst(|Maps|) && |Names| == Count && NamesValid() && MapValid()
    }

    ghost predicate NamesValid()
      reads this`Names, this`Text, this`TextOffsets
    {
      && (forall i :: 0 <= i < |Names| ==> IsCString(Names[i]))
      && Text == Concat(Terminated(Names)) && TextOffsets == Offsets(Terminated(Names))
    }

    /** The index finds every map by its name, and nothing else. */
    ghost predicate MapValid()
      reads this`Names, this`Map
    {
      && (forall i :: 0 <= i < |Names| ==> HashStr(Names[i]) in Map && Map[HashStr(Names[i])] == i)
      && (forall h :: h in Map ==> 0 <= Map[h] < |Names| && h == HashStr(Names[Map[h]]))
    }

    constructor (hash: string -> int)
      ensures Valid() && Maps == [] && Names == [] && this.hash == hash
    {
      this.hash := hash;
      Keys, KeyCounts, KeyOffsets, Tables, TableSizes, TableOffsets, Quals := [], [], [], [], [], [], [];
      Text, TextOffsets := "", [];
      Map, Count, Maps, Names := map[], 0, [], [];
    }

    function HashStr(name: string): int {
      hash(name)
    }

    function GetIndex(name: string): int
      reads this`Map
    {
      if HashStr(name) in Map then Map[HashStr(name)] else -1
    }

    function GetName(cmap: int): Option<string>
      reads this
      requires Valid() && cmap >= 0
      ensures GetName(cmap) == if cmap < Count then Some(Names[cmap]) else None
    {
      if cmap < Count then
        NameAt(Names, cmap);
        Some(ReadCString(Text, TextOffsets[cmap]))
      else None
    }

    /** Names and indices go together: each map is found by its name, and a name is found exactly when
        its hash is that of a name held, which is the name of the map found. */
    lemma NamesAndIndices(cmap: int, name: string)
      requires Valid()
      ensures 0 <= cmap < Count ==> GetIndex(GetName(cmap).value) == cmap
      ensures GetIndex(name) == -1 <==> forall i :: 0 <= i < Count ==> HashStr(GetName(i).value) != HashStr(name)
      ensures GetIndex(name) != -1 ==>
                0 <= GetIndex(name) < Count && HashStr(GetName(GetIndex(name)).value) == HashStr(name)
    {
      hide KeysValid, TablesOfFirst, NamesValid;
      if GetIndex(name) != -1 {
        assert GetName(GetIndex(name)) == Some(Names[GetIndex(name)]);
      }
    }

    function GetKeyColor(cmap: int, idx: int): U32
      reads this
      requires KeysValid() && 0 <= cmap < Count && 0 <= idx < |Maps[cmap].keys|
      ensures GetKeyColor(cmap, idx) == Maps[cmap].keys[idx]
    {
      PartAt(KeyParts(Maps), cmap);
      KeyAt(cmap, idx);
      Keys[KeyOffsets[cmap] + idx]
    }

    lemma KeyAt(cmap: int, idx: int)
      requires KeysValid() && 0 <= cmap < Count && 0 <= idx < |Maps[cmap].keys|
      ensures cmap < |KeyOffsets| && 0 <= KeyOffsets[cmap] && KeyOffsets[cmap] + idx < |Keys| && Keys[KeyOffsets[cmap] + idx] == Maps[cmap].keys[idx]
    {
      var parts := KeyParts(Maps);
      PartAt(parts, cmap);
      var off := |Concat(parts[..cmap])|;
      assert Concat(parts)[off..off + |parts[cmap]|][idx] == parts[cmap][idx];
    }

    /** The qualitative branch of _AppendTable. */
    method PushKeys(cmap: int, keyCount: int)
      requires KeysValid() && 0 <= cmap < Count && keyCount == |Maps[cmap].keys|
      modifies this`Tables
      ensures Tables == old(Tables) + TableOf(Maps[cmap].keys, true)
    {
      hide Concat, Offsets, Sizes;
      ghost var keys := Maps[cmap].keys;
      for i := 0 to keyCount
        invariant Tables == old(Tables) + keys[..i]
      {
        KeyAt(cmap, i);
        Tables := Tables + [Keys[KeyOffsets[cmap] + i]];
      }
    }

    /** The continuous branch of _AppendTable: 255 blends from each key to the next, and the last key. */
    method PushRamp(cmap: int, keyCount: int)
      requires KeysValid() && 0 <= cmap < Count && keyCount == |Maps[cmap].keys|
      modifies this`Tables
      ensures Tables == old(Tables) + TableOf(Maps[cmap].keys, false)
    {
      hide Concat, Offsets, Sizes, Mix, TableOf;
      ghost var keys := Maps[cmap].keys;
      ghost var table := TableOf(keys, false);
      for i := 0 to keyCount - 1
        invariant Tables == old(Tables) + table[..255 * i]
      {
        for s := 0 to 255
          invariant Tables == old(Tables) + table[..255 * i + s]
        {
          KeyAt(cmap, i);
          KeyAt(cmap, i + 1);
          RampStep(keys, i, s);
          Tables := Tables + [Mix(Keys[KeyOffsets[cmap] + i], Keys[KeyOffsets[cmap] + (i + 1)], s)];
        }
      }
      KeyAt(cmap, keyCount - 1);
      RampEnd(keys);
      Tables := Tables + [Keys[KeyOffsets[cmap] + (keyCount - 1)]];
    }

    /** _AppendTable: adds the table of map cmap behind the tables of the maps before it. */
    method AppendTable(cmap: int)
      requires KeysValid() && 0 <= cmap < Count && TablesOfFirst(cmap)
      modifies this`Tables, this`TableSizes, this`TableOffsets
      ensures TablesOfFirst(cmap + 1)
    {
      hide Concat, Offsets, Sizes, Mix, TableOf, KeyParts, TableParts;
      ghost var table := TableOf(Maps[cmap].keys, Maps[cmap].qual);
      var keyCount := CountAt(cmap);
      TableOffsets := TableOffsets + [|Tables|];
      if Quals[cmap] {
        PushKeys(cmap, keyCount);
        TableSizes := TableSizes + [keyCount];
      } else {
        var maxSize := 255 * (keyCount - 1) + 1;
        PushRamp(cmap, keyCount);
        TableSizes := TableSizes + [maxSize];
      }
      NextTable(Maps, cmap);
      AppendPart(TableParts(Maps[..cmap]), table);
    }

    /** GetKeyCount. */
    function CountAt(cmap: int): int
      reads this
      requires KeysValid() && 0 <= cmap < Count
      ensures CountAt(cmap) == |Maps[cmap].keys|
    {
      KeyCounts[cmap]
    }

    /** Rebuilding from the keys gives the tables the keys determine, whatever was there before. */
    method RebuildTables()
      requires KeysValid()
      modifies this`Tables, this`TableSizes, this`TableOffsets
      ensures TablesOfFirst(|Maps|)
      ensures old(TablesOfFirst(|Maps|)) ==> Tables == old(Tables) && TableSizes == old(TableSizes) && TableOffsets == old(TableOffsets)
    {
      hide Concat, Offsets, Sizes, TableOf;
      NoTables(Maps);
      Tables, TableSizes, TableOffsets := [], [], [];
      for i := 0 to Count
        invariant TablesOfFirst(i)
      {
        AppendTable(i);
      }
    }

    /** A name whose hash is taken is refused, even if the name itself is new. */
    method Append(name: string, keys: seq<U32>, qual: bool) returns (idx: int)
      requires Valid() && |keys| > 0 && IsCString(name)
      modifies this
      ensures Valid()
      ensures if exists i :: 0 <= i < |old(Names)| && HashStr(old(Names)[i]) == HashStr(name) then
                idx == -1 && Maps == old(Maps) && Names == old(Names)
              else
                idx == |old(Maps)| && Maps == old(Maps) + [Colormap(keys, qual)] && Names == old(Names) + [name]
    {
      hide Concat, Offsets, Sizes, TableOf, TableParts, KeyParts, Terminated, IsCString;
      if GetIndex(name) != -1 {
        assert HashStr(Names[GetIndex(name)]) == HashStr(name);
        return -1;
      }
      AppendKeys(keys, qual);
      AppendName(name);
      idx := Count - 1;
      Map := Map[HashStr(name) := idx];
      AppendTable(idx);
    }

    method AppendName(name: string)
      requires NamesValid() && IsCString(name)
      modifies this`Text, this`TextOffsets, this`Names
      ensures NamesValid() && Names == old(Names) + [name]
    {
      hide Concat, Offsets, Terminated, IsCString;
      TextOffsets := TextOffsets + [|Text|];
      Text := Text + (name + "\0");
      Names := Names + [name];
      MoreNames(old(Names), name);
      AppendPart(Terminated(old(Names)), name + "\0");
    }

    /** The part of Append that extends the key arrays. */
    method AppendKeys(keys: seq<U32>, qual: bool)
      requires KeysValid() && TablesOfFirst(|Maps|) && |keys| > 0
      modifies this`Keys, this`KeyCounts, this`KeyOffsets, this`Quals, this`Count, this`Maps
      ensures KeysValid() && Maps == old(Maps) + [Colormap(keys, qual)] && Count == |Maps|
      ensures TablesOfFirst(|old(Maps)|)
    {
      hide Concat, Offsets, Sizes, TableOf, TableParts, KeyParts;
      KeyOffsets := KeyOffsets + [|Keys|];
      KeyCounts := KeyCounts + [|keys|];
      CopyKeys(keys);
      Quals := Quals + [qual];
      Count := Count + 1;
      Maps := Maps + [Colormap(keys, qual)];
      AppendPart(KeyParts(old(Maps)), keys);
      MoreKeys(old(Maps), Colormap(keys, qual));
      assert Maps[..|old(Maps)|] == old(Maps) && old(Maps)[..|old(Maps)|] == old(Maps);
    }

    method CopyKeys(keys: seq<U32>)
      modifies this`Keys
      ensures Keys == old(Keys) + keys
    {
      for i := 0 to |keys|
        invariant Keys == old(Keys) + keys[..i]
      {
        Keys := Keys + [keys[i]];
      }
    }

    /** Changing a key rebuilds every table, so the cache stays what the keys determine. */
    method SetKeyColor(cmap: int, idx: int, value: U32)
      requires Valid() && 0 <= cmap < Count && 0 <= idx < |Maps[cmap].keys|
      modifies this
      ensures Valid() && Names == old(Names)
      ensures Maps == old(Maps)[cmap := old(Maps)[cmap].(keys := old(Maps)[cmap].keys[idx := value])]
    {
      hide Concat, TableOf;
      ghost var parts := KeyParts(Maps);
      KeyAt(cmap, idx);
      UpdatePart(parts, cmap, idx, value);
      Keys := Keys[KeyOffsets[cmap] + idx := value];
      Maps := Maps[cmap := Maps[cmap].(keys := Maps[cmap].keys[idx := value])];
      ghost var parts' := KeyParts(Maps);
      assert parts' == parts[cmap := parts[cmap][idx := value]];
      assert Sizes(parts') == Sizes(parts);
      SameSizesSameOffsets(parts', parts);
      RebuildTables();
    }

    function LerpTable(cmap: int, t: real): U32
      reads this
      requires Valid() && 0 <= cmap < Count && 0.0 <= t <= 1.0
      ensures LerpTable(cmap, t) == Sampled(Maps[cmap].keys, Maps[cmap].qual, t)
    {
      LerpEntry(cmap, t);
      var off := TableOffsets[cmap];
      var siz := TableSizes[cmap];
      Tables[off + LerpIndex(Quals[cmap], siz, t)]
    }

    lemma LerpEntry(cmap: int, t: real)
      requires Valid() && 0 <= cmap < Count && 0.0 <= t <= 1.0
      ensures cmap < |TableOffsets| && cmap < |TableSizes| && cmap < |Quals| && TableSizes[cmap] > 0
      ensures var i := LerpIndex(Quals[cmap], TableSizes[cmap], t);
              && 0 <= i < TableSizes[cmap] && 0 <= TableOffsets[cmap] + i < |Tables|
              && Tables[TableOffsets[cmap] + i] == Sampled(Maps[cmap].keys, Maps[cmap].qual, t)
    {
      hide Concat, Offsets, Sizes, TableOf, LerpIndex;
      TableAt(cmap);
      LerpIndexInside(Quals[cmap], TableSizes[cmap], t);
      TableEntry(cmap, LerpIndex(Quals[cmap], TableSizes[cmap], t));
    }

    /** The table segment of a map is the table its current keys determine. */
    lemma TableAt(cmap: int)
      requires Valid() && 0 <= cmap < Count
      ensures cmap < |TableOffsets| && cmap < |TableSizes| && cmap < |Quals| && |Maps[cmap].keys| > 0
      ensures var off, siz := TableOffsets[cmap], TableSizes[cmap];
              && 0 <= off && 0 < siz && off + siz <= |Tables|
              && Tables[off..off + siz] == TableOf(Maps[cmap].keys, Maps[cmap].qual)
      ensures Quals[cmap] == Maps[cmap].qual
    {
      hide Concat, TableOf;
      assert Maps[..|Maps|] == Maps;
      PartAt(TableParts(Maps), cmap);
    }

    lemma TableEntry(cmap: int, j: int)
      requires Valid() && 0 <= cmap < Count && 0 <= j < TableSizes[cmap]
      ensures 0 <= TableOffsets[cmap] + j < |Tables|
      ensures |TableOf(Maps[cmap].keys, Maps[cmap].qual)| == TableSizes[cmap]
      ensures Tables[TableOffsets[cmap] + j] == TableOf(Maps[cmap].keys, Maps[cmap].qual)[j]
    {
      hide Concat, Offsets, Sizes, TableOf, TableParts, Valid;
      TableAt(cmap);
      var off, siz := TableOffsets[cmap], TableSizes[cmap];
      assert Tables[off..off + siz][j] == Tables[off + j];
    }
  }

  lemma RampStep(keys: seq<U32>, i: int, s: int)
    requires 0 <= i < |keys| - 1 && 0 <= s < 255
    ensures 255 * i + s < |TableOf(keys, false)| && TableOf(keys, false)[255 * i + s] == Mix(keys[i], keys[i + 1], s)
  {
    hide Mix;
    DivModIs(255 * i + s, 255, i, s);
  }

  lemma RampEnd(keys: seq<U32>)
    requires |keys| > 0
    ensures TableOf(keys, false) == TableOf(keys, false)[..255 * (|keys| - 1)] + [keys[|keys| - 1]]
  {
    hide Mix;
  }
}
