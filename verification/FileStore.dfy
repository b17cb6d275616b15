/** The file store: sixteen fixed slots that behave as a map from names to contents. */
module FileStore {
  import opened Machine
  import opened CStrings

  const MAX_FILES := 16
  const MAX_FILENAME := 32
  const MAX_FILESIZE := 4096
  const NULL := -1

  datatype FileType = TEXT | BINARY
  datatype File = File(name: Text, content: Text, kind: FileType)

  // ----- the abstract store

  /** First file of that name, -1 if there is none. */
  function IndexOf(files: seq<File>, name: Text): (i: int)
    ensures -1 <= i < |files|
    ensures i >= 0 ==> files[i].name == name
    ensures i < 0 ==> forall k :: 0 <= k < |files| ==> files[k].name != name
  {
    if |files| == 0 then -1
    else if files[0].name == name then 0
    else var r := IndexOf(files[1..], name); if r < 0 then -1 else r + 1
  }

  /** The result code and the files after `fs_add_file`. */
  function Add(ready: bool, files: seq<File>, f: File): (int, seq<File>) {
    if !ready || |files| >= MAX_FILES then (-1, files)
    else if |f.name| >= MAX_FILENAME || |f.content| >= MAX_FILESIZE then (-2, files)
    else if IndexOf(files, f.name) >= 0 then (-3, files)
    else (0, files + [f])
  }

  ghost predicate Unique(files: seq<File>) {
    forall i, j :: 0 <= i < j < |files| ==> files[i].name != files[j].name
  }

  ghost predicate Sound(files: seq<File>) {
    && |files| <= MAX_FILES && Unique(files)
    && forall i :: 0 <= i < |files| ==> |files[i].name| < MAX_FILENAME && |files[i].content| < MAX_FILESIZE
  }

  /** The store as a finite map. */
  ghost function Contents(files: seq<File>): map<Text, Text> {
    if |files| == 0 then map[] else
    var last := files[|files| - 1];
    Contents(files[..|files| - 1])[last.name := last.content]
  }

  lemma {:induction false} IndexAfterAdd(files: seq<File>, f: File, name: Text)
    ensures IndexOf(files + [f], name)
         == if IndexOf(files, name) >= 0 then IndexOf(files, name) else if f.name == name then |files| else -1
  {
    if |files| > 0 {
      assert (files + [f])[1..] == files[1..] + [f];
      IndexAfterAdd(files[1..], f, name);
    }
  }

  /** The search by name reads the map. */
  lemma {:induction false} Lookup(files: seq<File>, name: Text)
    requires Unique(files)
    ensures name in Contents(files) <==> IndexOf(files, name) >= 0
    ensures name in Contents(files) ==> Contents(files)[name] == files[IndexOf(files, name)].content
  {
    if |files| > 0 {
      var init, last := files[..|files| - 1], files[|files| - 1];
      Lookup(init, name);
      assert files == init + [last];
      IndexAfterAdd(init, last, name);
    }
  }

  /** With unique names the map has as many entries as there are files. */
  lemma {:induction false} MapSize(files: seq<File>)
    requires Unique(files)
    ensures |Contents(files)| == |files|
  {
    if |files| > 0 {
      var init, last := files[..|files| - 1], files[|files| - 1];
      MapSize(init);
      Lookup(init, last.name);
      assert IndexOf(init, last.name) < 0;
    }
  }

  lemma ContentsAppend(files: seq<File>, f: File)
    ensures Contents(files + [f]) == Contents(files)[f.name := f.content]
  {
    assert (files + [f])[..|files|] == files;
  }

  lemma UniqueAppend(files: seq<File>, f: File)
    requires Unique(files) && IndexOf(files, f.name) < 0
    ensures Unique(files + [f])
  {}

  /** An add succeeds exactly when there is room, the file fits and the name is new; then
      the map gains that one entry, and otherwise it stays as it is. */
  lemma AddExtendsMap(ready: bool, files: seq<File>, f: File)
    requires Sound(files)
    ensures var (code, files') := Add(ready, files, f);
      && Sound(files')
      && (code == 0 <==> ready && |Contents(files)| < MAX_FILES && |f.name| < MAX_FILENAME
                         && |f.content| < MAX_FILESIZE && f.name !in Contents(files))
      && Contents(files') == (if code == 0 then Contents(files)[f.name := f.content] else Contents(files))
      && |Contents(files')| == |files'|
  {
    hide IndexOf, Contents, Unique;
    Lookup(files, f.name);
    MapSize(files);
    if Add(ready, files, f).0 == 0 {
      ContentsAppend(files, f);
      UniqueAppend(files, f);
      MapSize(files + [f]);
    }
  }

  /** All the adds of a run, in order. */
  function AddAll(files: seq<File>, fs: seq<File>): seq<File>
    decreases |fs|
  {
    if |fs| == 0 then files else AddAll(Add(true, files, fs[0]).1, fs[1..])
  }

  /** Over any run of adds the store stays sound, and a file once stored is never moved,
      changed or shadowed. */
  lemma {:induction false} RunKeepsFiles(files: seq<File>, fs: seq<File>)
    requires Sound(files)
    ensures var files' := AddAll(files, fs);
      && Sound(files') && files <= files'
      && forall n :: n in Contents(files) ==> n in Contents(files') && Contents(files')[n] == Contents(files)[n]
    decreases |fs|
  {
    hide Sound, Contents, Add;
    if |fs| > 0 {
      AddExtendsMap(true, files, fs[0]);
      AddAppends(files, fs[0]);
      RunKeepsFiles(Add(true, files, fs[0]).1, fs[1..]);
    }
  }

  lemma AddAppends(files: seq<File>, f: File)
    ensures files <= Add(true, files, f).1
  {}

  /** The result code: -1 for a store that is not ready or holds sixteen files, else -2 for
      a name of 32 characters or more or a content of 4096 or more, else -3 for a name that
      is taken, else 0. A file that is refused changes nothing; one that is not goes last. */
  lemma AddLaw(ready: bool, files: seq<File>, f: File)
    requires Sound(files)
    ensures var (code, files') := Add(ready, files, f);
      && (code == -1 <==> !ready || |Contents(files)| == 16)
      && (code == -2 <==> ready && |Contents(files)| < 16 && (|f.name| >= 32 || |f.content| >= 4096))
      && (code == -3 <==> ready && |Contents(files)| < 16 && |f.name| < 32 && |f.content| < 4096
                          && f.name in Contents(files))
      && code in {0, -1, -2, -3}
      && files' == if code == 0 then files + [f] else files
  {
    hide IndexOf, Contents, Unique;
    Lookup(files, f.name);
    MapSize(files);
  }

  predicate Fits(f: File) {
    |f.name| < 32 && |f.content| < 4096
  }

  /** Files that fit, with new and different names, are all added, in order, while there is
      room. */
  lemma {:induction false} AllAdded(files: seq<File>, fs: seq<File>)
    requires Sound(files) && |files| + |fs| <= 16
    requires forall k :: 0 <= k < |fs| ==> Fits(fs[k]) && fs[k].name !in Contents(files)
    requires forall j, k :: 0 <= j < k < |fs| ==> fs[j].name != fs[k].name
    ensures AddAll(files, fs) == files + fs
    decreases |fs|
  {
    hide Contents, Add, Unique, IndexOf;
    if |fs| == 0 {
      assert files + fs == files;
    } else {
      AddLaw(true, files, fs[0]);
      MapSize(files);
      AddExtendsMap(true, files, fs[0]);
      var files', rest := files + [fs[0]], fs[1..];
      forall k | 0 <= k < |rest| ensures rest[k].name !in Contents(files') {
        assert rest[k] == fs[k + 1] && fs[0].name != fs[k + 1].name;
      }
      AllAdded(files', rest);
      assert files' + rest == files + fs;
    }
  }

  lemma {:induction false} AddAllAppend(files: seq<File>, a: seq<File>, b: seq<File>)
    ensures AddAll(files, a + b) == AddAll(AddAll(files, a), b)
    decreases |a|
  {
    hide Add;
    if |a| == 0 {
      assert a + b == b;
    } else {
      assert (a + b)[0] == a[0] && (a + b)[1..] == a[1..] + b;
      AddAllAppend(Add(true, files, a[0]).1, a[1..], b);
    }
  }

  /** In any run of adds, a file that fits, finds room and is the first of its name is in
      the store at the end, with its content. */
  lemma FirstOfNameStored(files: seq<File>, fs: seq<File>, k: nat)
    requires Sound(files) && k < |fs| && Fits(fs[k]) && |AddAll(files, fs[..k])| < 16
    requires fs[k].name !in Contents(files) && forall j :: 0 <= j < k ==> fs[j].name != fs[k].name
    ensures fs[k].name in Contents(AddAll(files, fs))
    ensures Contents(AddAll(files, fs))[fs[k].name] == fs[k].content
  {
    hide Contents, Add, Sound, AddAll;
    var f, before, rest := fs[k], AddAll(files, fs[..k]), fs[k + 1..];
    RunKeepsFiles(files, fs[..k]);
    OnlyTheseNames(files, fs[..k], f.name);
    AddExtendsMap(true, before, f);
    AddLaw(true, before, f);
    StoreSize(before);
    AddAllOne(before, f);
    assert fs == fs[..k] + ([f] + rest);
    AddAllAppend(files, fs[..k], [f] + rest);
    AddAllAppend(before, [f], rest);
    RunKeepsFiles(AddAll(before, [f]), rest);
  }

  lemma StoreSize(files: seq<File>)
    requires Sound(files)
    ensures |Contents(files)| == |files|
  {
    MapSize(files);
  }

  lemma AddAllOne(files: seq<File>, f: File)
    ensures AddAll(files, [f]) == Add(true, files, f).1
  {
    hide Add;
    assert [f][1..] == [];
    assert AddAll(Add(true, files, f).1, []) == Add(true, files, f).1;
  }

  /** No other names get in. */
  lemma {:induction false} OnlyTheseNames(files: seq<File>, fs: seq<File>, name: Text)
    requires Sound(files) && name !in Contents(files) && forall j :: 0 <= j < |fs| ==> fs[j].name != name
    ensures name !in Contents(AddAll(files, fs))
    decreases |fs|
  {
    hide Contents, Add, Sound;
    if |fs| > 0 {
      AddExtendsMap(true, files, fs[0]);
      OnlyTheseNames(Add(true, files, fs[0]).1, fs[1..], name);
    }
  }

  /** So after `fs_init` every demo file can be read, if they fit and have different names. */
  lemma DemoFilesReadable(demo: seq<File>, k: nat)
    requires k < |demo| <= 16 && forall j :: 0 <= j < |demo| ==> Fits(demo[j])
    requires forall i, j :: 0 <= i < j < |demo| ==> demo[i].name != demo[j].name
    ensures AddAll([], demo) == demo
    ensures demo[k].name in Contents(AddAll([], demo))
    ensures Contents(AddAll([], demo))[demo[k].name] == demo[k].content
  {
    hide Contents, AddAll;
    assert Contents([]) == map[] by { EmptyStore(); }
    AllAdded([], demo);
    AllAdded([], demo[..k]);
    assert [] + demo == demo && [] + demo[..k] == demo[..k];
    FirstOfNameStored([], demo, k);
  }

  lemma EmptyStore()
    ensures Contents([]) == map[]
  {}

  // ----- the store in its arrays

  /** Slot `i` holds the file `f`. */
  ghost predicate Stored(s: Slots, i: nat, f: File) {
    && |s.names| == MAX_FILES * MAX_FILENAME && |s.bytes| == MAX_FILES * MAX_FILESIZE
    && |s.sizes| == |s.kinds| == |s.starts| == MAX_FILES && i < MAX_FILES
    && NameStored(s.names[i * MAX_FILENAME..(i + 1) * MAX_FILENAME], f.name)
    && s.sizes[i] == |f.content| && s.kinds[i] == f.kind && s.starts[i] == i * MAX_FILESIZE
    && RegionStored(s.bytes[i * MAX_FILESIZE..(i + 1) * MAX_FILESIZE], f.content)
  }

  ghost predicate NameStored(slot: seq<byte>, name: Text) {
    IsCString(slot) && CString(slot, 0) == name
  }

  /** A file's region holds its content and zeros beyond it. */
  ghost predicate RegionStored(region: seq<byte>, content: Text) {
    |content| < |region| && region[..|content|] == content && forall k :: |content| <= k < |region| ==> region[k] == 0
  }

  lemma SlotName(s: Slots, i: nat, f: File)
    requires Stored(s, i, f)
    ensures i < MAX_FILES && |s.names| == MAX_FILES * MAX_FILENAME
    ensures NameStored(s.names[i * MAX_FILENAME..(i + 1) * MAX_FILENAME], f.name)
  {}

  lemma NoFile(name: Text)
    ensures IndexOf([], name) == NULL
  {}

  lemma IndexIs(files: seq<File>, i: nat, name: Text)
    requires i < |files| && files[i].name == name && forall k :: 0 <= k < i ==> files[k].name != name
    ensures IndexOf(files, name) == i
    decreases |files|
  {
    if i > 0 {
      IndexIs(files[1..], i - 1, name);
    }
  }

  lemma RegionRead(bytes: seq<byte>, a: nat, b: nat, content: Text)
    requires a <= b <= |bytes| && RegionStored(bytes[a..b], content)
    ensures a + |content| < b && bytes[a..a + |content|] == content && bytes[a + |content|] == 0
  {
    assert bytes[a..b][..|content|] == bytes[a..a + |content|];
    assert bytes[a..b][|content|] == bytes[a + |content|];
  }

  /** The arrays as values. */
  datatype Slots = Slots(names: seq<byte>, sizes: seq<nat>, kinds: seq<FileType>, starts: seq<int>, bytes: seq<byte>)

  lemma EarlierKept(s: Slots, s': Slots, slot: nat, i: nat, f: File)
    requires i < slot < MAX_FILES && Stored(s, i, f)
    requires |s'.names| == |s.names| && forall k :: 0 <= k < slot * MAX_FILENAME ==> s'.names[k] == s.names[k]
    requires |s'.bytes| == |s.bytes| && forall k :: 0 <= k < slot * MAX_FILESIZE ==> s'.bytes[k] == s.bytes[k]
    requires |s'.sizes| == |s'.kinds| == |s'.starts| == MAX_FILES
    requires s'.sizes[i] == s.sizes[i] && s'.kinds[i] == s.kinds[i] && s'.starts[i] == s.starts[i]
    ensures Stored(s', i, f)
  {
    hide NameStored, RegionStored;
    SamePart(s.names, s'.names, slot * MAX_FILENAME, i * MAX_FILENAME, (i + 1) * MAX_FILENAME);
    SamePart(s.bytes, s'.bytes, slot * MAX_FILESIZE, i * MAX_FILESIZE, (i + 1) * MAX_FILESIZE);
  }

  lemma SamePart(a: seq<byte>, b: seq<byte>, n: nat, i: nat, j: nat)
    requires |a| == |b| && i <= j <= n <= |a| && forall k :: 0 <= k < n ==> b[k] == a[k]
    ensures b[i..j] == a[i..j]
  {}

  lemma NewStored(s: Slots, slot: nat, f: File)
    requires slot < MAX_FILES && |s.names| == MAX_FILES * MAX_FILENAME && |s.bytes| == MAX_FILES * MAX_FILESIZE
    requires |s.sizes| == |s.kinds| == |s.starts| == MAX_FILES
    requires |f.name| < MAX_FILENAME && |f.content| < MAX_FILESIZE && forall k :: 0 <= k < |f.name| ==> f.name[k] != NUL
    requires var at := slot * MAX_FILENAME; s.names[at..at + |f.name|] == f.name && s.names[at + |f.name|] == NUL
    requires var at := slot * MAX_FILESIZE;
      s.bytes[at..at + |f.content|] == f.content && forall k :: at + |f.content| <= k < |s.bytes| ==> s.bytes[k] == 0
    requires s.sizes[slot] == |f.content| && s.kinds[slot] == f.kind && s.starts[slot] == slot * MAX_FILESIZE
    ensures Stored(s, slot, f)
  {
    NameIs(s.names, slot * MAX_FILENAME, (slot + 1) * MAX_FILENAME, f.name);
    RegionIs(s.bytes, slot * MAX_FILESIZE, (slot + 1) * MAX_FILESIZE, f.content);
  }

  lemma NameIs(names: seq<byte>, a: nat, b: nat, name: Text)
    requires a + |name| < b <= |names| && names[a..a + |name|] == name && names[a + |name|] == NUL
    requires forall k :: 0 <= k < |name| ==> name[k] != NUL
    ensures NameStored(names[a..b], name)
  {
    var slot := names[a..b];
    assert slot[..|name|] == names[a..a + |name|];
    assert forall k :: 0 <= k < |name| ==> slot[k] == slot[..|name|][k];
    CStringIs(slot, 0, |name|);
  }

  lemma RegionIs(bytes: seq<byte>, a: nat, b: nat, content: Text)
    requires a + |content| < b <= |bytes| && bytes[a..a + |content|] == content
    requires forall k :: a + |content| <= k < |bytes| ==> bytes[k] == 0
    ensures RegionStored(bytes[a..b], content)
  {
    assert bytes[a..b][..|content|] == bytes[a..a + |content|];
  }

  /** The arrays after a file has been written to a slot; earlier slots are untouched, and
      so are the bytes beyond the file's content. */
  ghost predicate Filled(s: Slots, s': Slots, slot: nat, f: File) {
    && |s'.names| == |s.names| == MAX_FILES * MAX_FILENAME && |s'.bytes| == |s.bytes| == MAX_FILES * MAX_FILESIZE
    && |s.sizes| == |s.kinds| == |s.starts| == MAX_FILES
    && slot < MAX_FILES && |f.name| < MAX_FILENAME && |f.content| < MAX_FILESIZE
    && s'.sizes == s.sizes[slot := |f.content|] && s'.kinds == s.kinds[slot := f.kind]
    && s'.starts == s.starts[slot := slot * MAX_FILESIZE]
    && (var at := slot * MAX_FILENAME;
        && s'.names[at..at + |f.name|] == f.name && s'.names[at + |f.name|] == NUL
        && forall k :: 0 <= k < at ==> s'.names[k] == s.names[k])
    && (var at := slot * MAX_FILESIZE;
        && s'.bytes[at..at + |f.content|] == f.content
        && (forall k :: 0 <= k < at ==> s'.bytes[k] == s.bytes[k])
        && forall k :: at + |f.content| <= k < |s.bytes| ==> s'.bytes[k] == 0)
  }

  lemma FilledKeeps(s: Slots, s': Slots, files: seq<File>, f: File)
    requires |files| < MAX_FILES && Filled(s, s', |files|, f)
    requires forall i :: 0 <= i < |files| ==> Stored(s, i, files[i])
    requires forall k :: 0 <= k < |f.name| ==> f.name[k] != NUL
    ensures forall i :: 0 <= i <= |files| ==> Stored(s', i, (files + [f])[i])
  {
    hide Stored;
    NewStored(s', |files|, f);
    forall i | 0 <= i < |files| ensures Stored(s', i, files[i]) {
      EarlierKept(s, s', |files|, i, files[i]);
    }
  }

  class FileSystem {
    var initialized: bool
    var count: nat
    const names: array<byte>      // sixteen name fields of 32 bytes
    const sizes: array<nat>
    const kinds: array<FileType>
    const starts: array<int>      // where in `bytes` each file's data begins, or NULL
    const bytes: array<byte>      // sixteen regions of 4096 bytes
    ghost var files: seq<File>

    ghost predicate Shaped()
      reads this
    {
      && names.Length == MAX_FILES * MAX_FILENAME && bytes.Length == MAX_FILES * MAX_FILESIZE
      && sizes.Length == kinds.Length == starts.Length == MAX_FILES
      && names != bytes
    }

    ghost function Now(): Slots
      reads this, names, sizes, kinds, starts, bytes
    {
      Slots(names[..], sizes[..], kinds[..], starts[..], bytes[..])
    }

    /** Slot by slot the arrays hold `files`; regions not yet used are all zero. */
    ghost predicate Valid()
      reads this, names, sizes, kinds, starts, bytes
    {
      && Shaped() && Sound(files)
      && (!initialized ==> files == [])
      && (initialized ==>
            && count == |files|
            && (forall i :: 0 <= i < |files| ==> Stored(Now(), i, files[i]))
            && (forall k :: count * MAX_FILESIZE <= k < bytes.Length ==> bytes[k] == 0))
    }

    /** Static storage before `fs_init`. */
    constructor ()
      ensures Valid() && !initialized && files == []
      ensures fresh(names) && fresh(sizes) && fresh(kinds) && fresh(starts) && fresh(bytes)
    {
      initialized, count, files := false, 0, [];
      names := new byte[MAX_FILES * MAX_FILENAME](_ => 0);
      sizes := new nat[MAX_FILES](_ => 0);
      kinds := new FileType[MAX_FILES](_ => TEXT);
      starts := new int[MAX_FILES](_ => NULL);
      bytes := new byte[MAX_FILES * MAX_FILESIZE](_ => 0);
    }

    /** `fs_init`, with the demo files as a parameter. A second call changes nothing. */
    method Init(demo: seq<File>)
      requires Valid() && forall k :: 0 <= k < |demo| ==> NoNul(demo[k].name) && NoNul(demo[k].content)
      modifies this`initialized, this`count, this`files, names, sizes, kinds, starts, bytes
      ensures Valid() && initialized
      ensures old(initialized) ==> files == old(files) && count == old(count) && Now() == old(Now())
      ensures !old(initialized) ==> files == AddAll([], demo)
    {
      if initialized {
        return;
      }
      Format();
      AddFiles(demo);
    }

    /** The part of `fs_init` that empties the store. */
    method Format()
      requires Valid() && !initialized
      modifies this`initialized, this`count, names, sizes, kinds, starts, bytes
      ensures Valid() && initialized && files == []
    {
      count := 0;
      for i := 0 to MAX_FILES
        invariant count == 0
      {
        names[i * MAX_FILENAME], sizes[i], kinds[i], starts[i] := 0, 0, TEXT, NULL;
      }
      for i := 0 to MAX_FILES * MAX_FILESIZE
        invariant count == 0 && forall k :: 0 <= k < i ==> bytes[k] == 0
      {
        bytes[i] := 0;
      }
      initialized := true;
    }

    /** `fs_create_demo_files`: one `fs_add_file` after the other. */
    method AddFiles(fs: seq<File>)
      requires Valid() && initialized
      requires forall k :: 0 <= k < |fs| ==> NoNul(fs[k].name) && NoNul(fs[k].content)
      modifies this`count, this`files, names, sizes, kinds, starts, bytes
      ensures Valid() && initialized && files == AddAll(old(files), fs)
    {
      hide Stored, Sound, CString, NulAt, IsCString, Add, NoNul;
      for i := 0 to |fs|
        invariant Valid() && initialized && AddAll(files, fs[i..]) == AddAll(old(files), fs)
      {
        var f := fs[i];
        assert fs[i..][0] == f && fs[i..][1..] == fs[i + 1..];
        NulEnds(f.name);
        NulEnds(f.content);
        var _ := AddFile(f.name + [NUL], f.content + [NUL], f.kind);
      }
    }

    /** `fs_find_file`: the slot of the file of that name, NULL if there is none. */
    method FindFile(name: Text) returns (slot: int)
      requires Valid() && IsCString(name)
      ensures slot == IndexOf(files, CString(name, 0))
    {
      hide Stored, IndexOf, CString, NulAt, Sound, IsCString;
      if !initialized {
        NoFile(CString(name, 0));
        return NULL;
      }
      for i := 0 to count
        invariant forall k :: 0 <= k < i ==> files[k].name != CString(name, 0)
      {
        SlotName(Now(), i, files[i]);
        var entry := names[i * MAX_FILENAME..(i + 1) * MAX_FILENAME];
        var d := StrCmp(entry, name);
        if d == 0 {
          IndexIs(files, i, CString(name, 0));
          return i;
        }
      }
      return NULL;
    }

    /** `fs_read`: a pointer to the file's bytes, and how many there are. */
    method Read(name: Text) returns (code: int, data: int, size: nat)
      requires Valid() && IsCString(name)
      ensures code == (if CString(name, 0) in Contents(files) then 0 else -1)
      ensures code == 0 ==> 0 <= data && data + size < bytes.Length && bytes[data + size] == 0
      ensures code == 0 ==> bytes[data..data + size] == Contents(files)[CString(name, 0)]
    {
      hide CString, NulAt, IndexOf, Contents;
      var slot := FindFile(name);
      Lookup(files, CString(name, 0));
      if slot == NULL {
        return -1, NULL, 0;
      }
      assert Stored(Now(), slot, files[slot]);
      RegionRead(bytes[..], slot * MAX_FILESIZE, (slot + 1) * MAX_FILESIZE, files[slot].content);
      return 0, starts[slot], sizes[slot];
    }

    /** The copying loop of `fs_add_file`. */
    method CopyContent(data: nat, content: Text, contentLen: nat)
      requires contentLen <= |content| && data + contentLen <= bytes.Length
      modifies bytes
      ensures bytes[data..data + contentLen] == content[..contentLen]
      ensures forall k :: 0 <= k < bytes.Length && !(data <= k < data + contentLen) ==> bytes[k] == old(bytes[k])
    {
      for i := 0 to contentLen
        invariant forall k :: 0 <= k < i ==> bytes[data + k] == content[k]
        invariant forall k :: 0 <= k < bytes.Length && !(data <= k < data + i) ==> bytes[k] == old(bytes[k])
      {
        bytes[data + i] := content[i];
      }
    }

    /** The part of `fs_add_file` that writes to slot `slot`. */
    method WriteSlot(slot: nat, name: Text, content: Text, contentLen: nat, kind: FileType)
      requires Shaped() && slot < MAX_FILES && IsCString(name) && IsCString(content)
      requires |CString(name, 0)| < MAX_FILENAME && contentLen == |CString(content, 0)| < MAX_FILESIZE
      requires forall k :: slot * MAX_FILESIZE <= k < bytes.Length ==> bytes[k] == 0
      modifies names, sizes, kinds, starts, bytes
      ensures Filled(old(Now()), Now(), slot, File(CString(name, 0), CString(content, 0), kind))
    {
      hide IsCString, NulAt, Stored, CString;
      CStringFront(content);
      StrCpy(names, slot * MAX_FILENAME, name);
      sizes[slot] := contentLen;
      kinds[slot] := kind;
      var data := slot * MAX_FILESIZE;
      starts[slot] := data;
      CopyContent(data, content, contentLen);
    }

    /** The part of `fs_add_file` that fills the next free slot. */
    method FillSlot(name: Text, content: Text, contentLen: nat, kind: FileType)
      requires Valid() && initialized && count < MAX_FILES && IsCString(name) && IsCString(content)
      requires |CString(name, 0)| < MAX_FILENAME && contentLen == |CString(content, 0)| < MAX_FILESIZE
      requires IndexOf(files, CString(name, 0)) < 0
      modifies this`count, this`files, names, sizes, kinds, starts, bytes
      ensures Valid() && initialized && files == old(files) + [File(CString(name, 0), CString(content, 0), kind)]
      ensures forall k :: 0 <= k < old(count) * MAX_FILESIZE ==> bytes[k] == old(bytes[k])
    {
      hide IndexOf, Stored, Unique, NulAt, CString, IsCString;
      ghost var s, fs, f := Now(), files, File(CString(name, 0), CString(content, 0), kind);
      WriteSlot(count, name, content, contentLen, kind);
      UniqueAppend(files, f);
      NoNuls(content);
      NoNuls(name);
      FilledKeeps(s, Now(), fs, f);
      count := count + 1;
      files := files + [f];
    }

    /** `fs_add_file` */
    method AddFile(name: Text, content: Text, kind: FileType) returns (code: int)
      requires Valid() && IsCString(name) && IsCString(content)
      modifies this`count, this`files, names, sizes, kinds, starts, bytes
      ensures Valid() && initialized == old(initialized)
      ensures (code, files) == Add(initialized, old(files), File(CString(name, 0), CString(content, 0), kind))
      ensures forall k :: 0 <= k < bytes.Length && (code != 0 || k < old(|files|) * MAX_FILESIZE) ==>
                bytes[k] == old(bytes[k])
    {
      if !initialized || count >= MAX_FILES {
        return -1;
      }
      var nameLen := StrLen(name);
      var contentLen := StrLen(content);
      if nameLen >= MAX_FILENAME || contentLen >= MAX_FILESIZE {
        return -2;
      }
      var found := FindFile(name);
      if found != NULL {
        return -3;
      }
      FillSlot(name, content, contentLen, kind);
      return 0;
    }
  }
}
