/** The entry list of a cpio archive in memory. */
module CpioFile {
  import opened Bytes

  // ---------------------------------------------------------------------------
  // Entries
  // ---------------------------------------------------------------------------

  /** An entry header with its content; `link` is the target of a symbolic link. */
  datatype Entry = Entry(name: string, size: nat, link: Option<string>, perms: nat, data: bytes)

  function FileEntry(name: string, data: bytes, perms: nat): Entry {
    Entry(name, |data|, None, perms, data)
  }

  function LinkEntry(name: string, source: string): Entry {
    Entry(name, 0, Some(source), 511, [])
  }

  predicate Distinct(files: seq<Entry>) {
    forall i, j :: 0 <= i < j < |files| ==> files[i].name != files[j].name
  }

  predicate SizesAgree(files: seq<Entry>) {
    forall i :: 0 <= i < |files| ==> files[i].size == |files[i].data|
  }

  /** The first entry with a name, or the length of the list. */
  function IndexOf(files: seq<Entry>, name: string): (r: nat)
    ensures r <= |files|
    ensures r < |files| ==> files[r].name == name
    ensures forall k :: 0 <= k < r ==> files[k].name != name
  {
    if files == [] || files[0].name == name then 0 else 1 + IndexOf(files[1..], name)
  }

  predicate Has(files: seq<Entry>, name: string) {
    IndexOf(files, name) < |files|
  }

  // ---------------------------------------------------------------------------
  // Sorting by name
  // ---------------------------------------------------------------------------

  /** strcmp(a, b) < 0. */
  predicate Less(a: string, b: string)
    decreases |b|
  {
    b != "" && (a == "" || a[0] < b[0] || (a[0] == b[0] && Less(a[1..], b[1..])))
  }

  lemma {:induction false} LessTotal(a: string, b: string)
    ensures Less(a, b) || Less(b, a) || a == b
    ensures !(Less(a, b) && Less(b, a)) && !Less(a, a)
    decreases |a| + |b|
  {
    if a != "" {
      LessTotal(a[1..], if b == "" then "" else b[1..]);
      if b != "" && a[0] == b[0] && a[1..] == b[1..] {
        assert a == [a[0]] + a[1..] && b == [b[0]] + b[1..];
      }
    }
  }

  lemma {:induction false} LessTransitive(a: string, b: string, c: string)
    requires Less(a, b) && Less(b, c)
    ensures Less(a, c)
    decreases |a|
  {
    if a != "" && a[0] == b[0] && b[0] == c[0] {
      LessTransitive(a[1..], b[1..], c[1..]);
    }
  }

  predicate Sorted(files: seq<Entry>) {
    forall i, j :: 0 <= i < j < |files| ==> !Less(files[j].name, files[i].name)
  }

  function Insert(files: seq<Entry>, e: Entry): (r: seq<Entry>)
    ensures multiset(r) == multiset(files) + multiset{e}
  {
    if files == [] || Less(e.name, files[0].name) then
      assert [e] + files == [e] + files;
      [e] + files
    else
      assert files == [files[0]] + files[1..];
      [files[0]] + Insert(files[1..], e)
  }

  /** std::sort with sortByName; for entries with different names every way of sorting gives the same list. */
  function SortByName(files: seq<Entry>): (r: seq<Entry>)
    ensures multiset(r) == multiset(files)
  {
    if files == [] then []
    else
      assert files == [files[0]] + files[1..];
      Insert(SortByName(files[1..]), files[0])
  }

  lemma NotLessTransitive(a: string, b: string, c: string)
    requires !Less(b, a) && !Less(c, b)
    ensures !Less(c, a)
  {
    LessTotal(a, b);
    LessTotal(b, c);
    LessTotal(a, c);
    if Less(c, a) && b != a {
      LessTransitive(c, a, b);
    }
  }

  lemma MembersOf(a: seq<Entry>, b: seq<Entry>)
    requires multiset(a) == multiset(b)
    ensures forall e :: e in a <==> e in b
  {
    assert forall e :: e in a <==> e in multiset(a);
    assert forall e :: e in b <==> e in multiset(b);
  }

  lemma {:induction false} InsertSorts(files: seq<Entry>, e: Entry)
    requires Sorted(files)
    ensures Sorted(Insert(files, e))
  {
    hide Less;
    if files == [] {
    } else if Less(e.name, files[0].name) {
      forall j | 0 <= j < |files| ensures !Less(files[j].name, e.name) {
        LessTotal(e.name, files[0].name);
        if j > 0 {
          NotLessTransitive(e.name, files[0].name, files[j].name);
        }
      }
    } else {
      var rest := files[1..];
      assert Sorted(rest) by {
        assert forall i :: 0 <= i < |rest| ==> rest[i] == files[i + 1];
      }
      InsertSorts(rest, e);
      var r := Insert(rest, e);
      MembersOf(r, rest + [e]);
      forall j | 0 <= j < |r| ensures !Less(r[j].name, files[0].name) {
        assert r[j] in rest + [e];
      }
    }
  }

  lemma {:induction false} SortSorts(files: seq<Entry>)
    ensures Sorted(SortByName(files))
  {
    if files != [] {
      hide Insert, Sorted;
      SortSorts(files[1..]);
      InsertSorts(SortByName(files[1..]), files[0]);
    }
  }

  lemma DistinctByMembers(files: seq<Entry>)
    ensures Distinct(files) ==> forall d, e :: d in files && e in files && d.name == e.name ==> d == e
  {
  }

  /** The first entry of a sorted list is determined by the entries. */
  lemma SameFirst(a: seq<Entry>, b: seq<Entry>)
    requires Sorted(a) && Sorted(b) && Distinct(a) && a != [] && b != [] && multiset(a) == multiset(b)
    ensures a[0] == b[0]
  {
    hide Less;
    MembersOf(a, b);
    assert a[0] in b && b[0] in a;
    LessTotal(a[0].name, b[0].name);
    DistinctByMembers(a);
  }

  lemma TailOf(a: seq<Entry>)
    requires a != []
    ensures multiset(a[1..]) == multiset(a) - multiset{a[0]}
    ensures Sorted(a) ==> Sorted(a[1..])
    ensures Distinct(a) ==> Distinct(a[1..])
  {
    hide Less;
    assert a == [a[0]] + a[1..];
    assert forall i :: 0 <= i < |a[1..]| ==> a[1..][i] == a[i + 1];
  }

  /** With distinct names there is one sorted arrangement only, so the choice of sorting algorithm does not matter. */
  lemma {:induction false} SortedIsUnique(a: seq<Entry>, b: seq<Entry>)
    requires Sorted(a) && Sorted(b) && Distinct(a) && Distinct(b) && multiset(a) == multiset(b)
    ensures a == b
    decreases |a|
  {
    hide Sorted, Distinct;
    assert |multiset(a)| == |a| && |multiset(b)| == |b|;
    if a != [] {
      SameFirst(a, b);
      TailOf(a);
      TailOf(b);
      SortedIsUnique(a[1..], b[1..]);
      assert a == [a[0]] + a[1..] && b == [b[0]] + b[1..];
    }
  }

  // ---------------------------------------------------------------------------
  // Operations on the list
  // ---------------------------------------------------------------------------

  datatype Error = AlreadyExists | NotFound

  datatype Answer = Yes | No(error: Option<Error>) | Data(data: bytes)

  datatype Operation =
    | Exists(name: string)
    | Contents(name: string)
    | SetContents(name: string, data: bytes)
    | AddFile(name: string, data: bytes, perms: nat)
    | AddSymlink(name: string, source: string)
    | Remove(name: string)
    | Rename(name: string, target: string)

  function WithContents(e: Entry, data: bytes): Entry {
    e.(size := |data|, data := data)
  }

  function Apply(files: seq<Entry>, op: Operation): (seq<Entry>, Answer) {
    var i := IndexOf(files, op.name);
    match op
    case Exists(_) => (files, if i < |files| then Yes else No(None))
    case Contents(_) => (files, if i < |files| then Data(files[i].data) else No(Some(NotFound)))
    case SetContents(_, data) =>
      if i < |files| then (files[i := WithContents(files[i], data)], Yes) else (files, No(Some(NotFound)))
    case AddFile(name, data, perms) =>
      if i < |files| then (files, No(Some(AlreadyExists))) else (SortByName(files + [FileEntry(name, data, perms)]), Yes)
    case AddSymlink(name, source) =>
      if i < |files| then (files, No(Some(AlreadyExists))) else (SortByName(files + [LinkEntry(name, source)]), Yes)
    case Remove(_) =>
      if i < |files| then (files[..i] + files[i + 1..], Yes) else (files, No(None))
    case Rename(_, target) =>
      if Has(files, target) then (files, No(Some(AlreadyExists)))
      else if i < |files| then (files[i := files[i].(name := target)], Yes)
      else (files, No(Some(NotFound)))
  }

  class CpioArchive {
    var files: seq<Entry>
    var error: Option<Error>

    constructor ()
      ensures files == [] && error == None
    {
      files, error := [], None;
    }

    /** The loops over the list stop at the first entry with the name. */
    method Find(name: string) returns (i: nat)
      ensures i == IndexOf(files, name)
    {
      i := 0;
      while i < |files| && files[i].name != name
        invariant 0 <= i <= |files|
        invariant i + IndexOf(files[i..], name) == IndexOf(files, name)
      {
        assert files[i..][1..] == files[i + 1..];
        i := i + 1;
      }
    }

    method Exists(name: string) returns (found: bool)
      ensures found == Has(files, name)
    {
      var i := Find(name);
      found := i < |files|;
    }

    method Contents(name: string) returns (found: bool, data: bytes)
      modifies this`error
      ensures Apply(files, Operation.Contents(name)).1 == if found then Data(data) else No(error)
      ensures found ==> error == old(error)
    {
      var i := Find(name);
      if i < |files| {
        return true, files[i].data;
      }
      error := Some(NotFound);
      return false, [];
    }

    method SetContents(name: string, data: bytes) returns (ok: bool)
      modifies this
      ensures (files, if ok then Yes else No(error)) == Apply(old(files), Operation.SetContents(name, data))
      ensures ok ==> error == old(error)
    {
      var i := Find(name);
      if i < |files| {
        files := files[i := WithContents(files[i], data)];
        return true;
      }
      error := Some(NotFound);
      ok := false;
    }

    method AddFile(name: string, data: bytes, perms: nat) returns (ok: bool)
      modifies this
      ensures (files, if ok then Yes else No(error)) == Apply(old(files), Operation.AddFile(name, data, perms))
      ensures ok ==> error == old(error)
    {
      var present := Exists(name);
      if present {
        error := Some(AlreadyExists);
        return false;
      }
      files := files + [FileEntry(name, data, perms)];
      files := SortByName(files);
      ok := true;
    }

    method AddSymlink(name: string, source: string) returns (ok: bool)
      modifies this
      ensures (files, if ok then Yes else No(error)) == Apply(old(files), Operation.AddSymlink(name, source))
      ensures ok ==> error == old(error)
    {
      var present := Exists(name);
      if present {
        error := Some(AlreadyExists);
        return false;
      }
      files := files + [LinkEntry(name, source)];
      files := SortByName(files);
      ok := true;
    }

    method Remove(name: string) returns (removed: bool)
      modifies this`files
      ensures (files, if removed then Yes else No(None)) == Apply(old(files), Operation.Remove(name))
    {
      var i := Find(name);
      if i < |files| {
        files := files[..i] + files[i + 1..];
        return true;
      }
      removed := false;
    }

    method Rename(source: string, target: string) returns (ok: bool)
      modifies this
      ensures (files, if ok then Yes else No(error)) == Apply(old(files), Operation.Rename(source, target))
      ensures ok ==> error == old(error)
    {
      var present := Exists(target);
      if present {
        error := Some(AlreadyExists);
        return false;
      }
      var i := Find(source);
      if i < |files| {
        files := files[i := files[i].(name := target)];
        return true;
      }
      error := Some(NotFound);
      ok := false;
    }
  }

  // ---------------------------------------------------------------------------
  // The map the list stands for
  // ---------------------------------------------------------------------------

  /** What the archive holds under a name. */
  datatype Node = Node(link: Option<string>, perms: nat, data: bytes)

  function NodeOf(e: Entry): Node {
    Node(e.link, e.perms, e.data)
  }

  /** The list is a listing of the map: every name once, with its node and the right size. */
  ghost predicate Represents(files: seq<Entry>, m: map<string, Node>) {
    && Distinct(files)
    && SizesAgree(files)
    && (forall i :: 0 <= i < |files| ==> files[i].name in m && m[files[i].name] == NodeOf(files[i]))
    && (forall name :: name in m ==> Has(files, name))
  }

  /** The operations on the map. */
  function ApplyMap(m: map<string, Node>, op: Operation): (map<string, Node>, Answer) {
    match op
    case Exists(name) => (m, if name in m then Yes else No(None))
    case Contents(name) => (m, if name in m then Data(m[name].data) else No(Some(NotFound)))
    case SetContents(name, data) =>
      if name in m then (m[name := m[name].(data := data)], Yes) else (m, No(Some(NotFound)))
    case AddFile(name, data, perms) =>
      if name in m then (m, No(Some(AlreadyExists))) else (m[name := Node(None, perms, data)], Yes)
    case AddSymlink(name, source) =>
      if name in m then (m, No(Some(AlreadyExists))) else (m[name := Node(Some(source), 511, [])], Yes)
    case Remove(name) =>
      if name in m then (m - {name}, Yes) else (m, No(None))
    case Rename(name, target) =>
      if target in m then (m, No(Some(AlreadyExists)))
      else if name in m then ((m - {name})[target := m[name]], Yes)
      else (m, No(Some(NotFound)))
  }

  lemma HasExactly(files: seq<Entry>, name: string)
    ensures Has(files, name) <==> exists i :: 0 <= i < |files| && files[i].name == name
  {
  }

  /** Representation in terms of members only, so that the order of the list does not matter. */
  ghost predicate RepresentsMembers(files: seq<Entry>, m: map<string, Node>) {
    && (forall e :: e in files ==> e.size == |e.data| && e.name in m && m[e.name] == NodeOf(e))
    && (forall name :: name in m ==> exists e :: e in files && e.name == name)
  }

  lemma RepresentsByMembers(files: seq<Entry>, m: map<string, Node>)
    ensures Represents(files, m) <==> Distinct(files) && RepresentsMembers(files, m)
  {
    if Represents(files, m) {
      forall name | name in m ensures exists e :: e in files && e.name == name {
        HasExactly(files, name);
        assert files[IndexOf(files, name)] in files;
      }
    }
    if Distinct(files) && RepresentsMembers(files, m) {
      forall name | name in m ensures Has(files, name) {
        var e :| e in files && e.name == name;
        HasExactly(files, name);
      }
    }
  }

  lemma {:induction false} AtMostOnce(files: seq<Entry>, e: Entry)
    requires Distinct(files)
    ensures multiset(files)[e] <= 1
  {
    if files != [] {
      var rest := files[1..];
      assert files == [files[0]] + rest;
      assert forall i :: 0 <= i < |rest| ==> rest[i] == files[i + 1];
      AtMostOnce(rest, e);
      assert files[0] !in rest;
    }
  }

  lemma TwiceInList(files: seq<Entry>, i: nat, j: nat)
    requires i < j < |files| && files[i] == files[j]
    ensures multiset(files)[files[i]] >= 2
  {
    assert files == files[..j] + [files[j]] + files[j + 1..];
    assert files[i] in files[..j];
  }

  /** Distinct names stay distinct in any order. */
  lemma DistinctInAnyOrder(a: seq<Entry>, b: seq<Entry>)
    requires Distinct(a) && multiset(a) == multiset(b)
    ensures Distinct(b)
  {
    MembersOf(a, b);
    DistinctByMembers(a);
    forall i, j | 0 <= i < j < |b| ensures b[i].name != b[j].name {
      if b[i].name == b[j].name {
        assert b[i] in a && b[j] in a;
        TwiceInList(b, i, j);
        AtMostOnce(a, b[i]);
        assert false;
      }
    }
  }

  lemma RepresentsInAnyOrder(a: seq<Entry>, b: seq<Entry>, m: map<string, Node>)
    requires Represents(a, m) && multiset(a) == multiset(b)
    ensures Represents(b, m)
  {
    hide Represents, Distinct;
    RepresentsByMembers(a, m);
    RepresentsByMembers(b, m);
    DistinctInAnyOrder(a, b);
    MembersOf(a, b);
    forall name | name in m ensures exists e :: e in b && e.name == name {
      var e :| e in a && e.name == name;
      assert e in b;
    }
  }

  lemma AddRepresents(files: seq<Entry>, m: map<string, Node>, e: Entry)
    requires Represents(files, m) && e.name !in m && e.size == |e.data|
    ensures Represents(SortByName(files + [e]), m[e.name := NodeOf(e)])
  {
    var all := files + [e];
    var m' := m[e.name := NodeOf(e)];
    assert Represents(all, m') by {
      forall name | name in m' ensures Has(all, name) {
        if name == e.name {
          assert all[|files|].name == name;
        } else {
          assert all[IndexOf(files, name)].name == name;
        }
        HasExactly(all, name);
      }
    }
    RepresentsInAnyOrder(all, SortByName(all), m');
  }

  lemma RemoveRepresents(files: seq<Entry>, m: map<string, Node>, i: nat)
    requires Represents(files, m) && i < |files|
    ensures Represents(files[..i] + files[i + 1..], m - {files[i].name})
  {
    var rest := files[..i] + files[i + 1..];
    assert forall k :: 0 <= k < |rest| ==> rest[k] == files[if k < i then k else k + 1];
    var m' := m - {files[i].name};
    forall name | name in m' ensures Has(rest, name) {
      StillThere(files, rest, i, name);
    }
  }

  lemma StillThere(files: seq<Entry>, rest: seq<Entry>, i: nat, name: string)
    requires i < |files| && rest == files[..i] + files[i + 1..] && Has(files, name) && files[i].name != name
    ensures Has(rest, name)
  {
    HasExactly(files, name);
    var k := IndexOf(files, name);
    assert rest[if k < i then k else k - 1].name == name;
    HasExactly(rest, name);
  }

  lemma ReplaceRepresents(files: seq<Entry>, m: map<string, Node>, i: nat, e: Entry)
    requires Represents(files, m) && i < |files| && e.size == |e.data|
    requires e.name == files[i].name || e.name !in m
    ensures Represents(files[i := e], (m - {files[i].name})[e.name := NodeOf(e)])
  {
    var all, m' := files[i := e], (m - {files[i].name})[e.name := NodeOf(e)];
    forall name | name in m' ensures Has(all, name) {
      ThereAfter(files, all, i, name);
    }
  }

  lemma ThereAfter(files: seq<Entry>, all: seq<Entry>, i: nat, name: string)
    requires i < |files| == |all| && all == files[i := all[i]]
    requires all[i].name == name || (Has(files, name) && files[i].name != name)
    ensures Has(all, name)
  {
    HasExactly(files, name);
    if all[i].name != name {
      assert all[IndexOf(files, name)].name == name;
    }
    HasExactly(all, name);
  }

  lemma RemovedAndSet(m: map<string, Node>, name: string, node: Node)
    ensures (m - {name})[name := node] == m[name := node]
  {
  }

  /** One operation on the list does what it does on the map, and answers the same. */
  lemma ApplyRefines(files: seq<Entry>, m: map<string, Node>, op: Operation)
    requires Represents(files, m)
    ensures Represents(Apply(files, op).0, ApplyMap(m, op).0)
    ensures Apply(files, op).1 == ApplyMap(m, op).1
  {
    var i := IndexOf(files, op.name);
    HasExactly(files, op.name);
    assert op.name in m <==> i < |files|;
    if op.Rename? {
      HasExactly(files, op.target);
      assert op.target in m <==> Has(files, op.target);
    }
    if i < |files| {
      assert files[i].size == |files[i].data| && m[op.name] == NodeOf(files[i]);
    }
    hide Represents, IndexOf, SortByName;
    match op {
      case Exists(_) =>
      case Contents(_) =>
      case SetContents(name, data) =>
        if i < |files| {
          ReplaceRepresents(files, m, i, WithContents(files[i], data));
          RemovedAndSet(m, name, m[name].(data := data));
        }
      case AddFile(name, data, perms) =>
        if i == |files| {
          AddRepresents(files, m, FileEntry(name, data, perms));
        }
      case AddSymlink(name, source) =>
        if i == |files| {
          AddRepresents(files, m, LinkEntry(name, source));
        }
      case Remove(_) =>
        if i < |files| {
          RemoveRepresents(files, m, i);
        }
      case Rename(name, target) =>
        if i < |files| && !Has(files, target) {
          ReplaceRepresents(files, m, i, files[i].(name := target));
        }
    }
  }

  // ---------------------------------------------------------------------------
  // Sequences of operations
  // ---------------------------------------------------------------------------

  function Run(files: seq<Entry>, ops: seq<Operation>): (seq<Entry>, seq<Answer>)
    decreases |ops|
  {
    if ops == [] then (files, [])
    else
      var (files', answer) := Apply(files, ops[0]);
      var (last, answers) := Run(files', ops[1..]);
      (last, [answer] + answers)
  }

  function RunMap(m: map<string, Node>, ops: seq<Operation>): (map<string, Node>, seq<Answer>)
    decreases |ops|
  {
    if ops == [] then (m, [])
    else
      var (m', answer) := ApplyMap(m, ops[0]);
      var (last, answers) := RunMap(m', ops[1..]);
      (last, [answer] + answers)
  }

  /** However the list is used, it stays a listing of the map and answers what the map would. */
  lemma {:induction false} ListRefinesMap(files: seq<Entry>, m: map<string, Node>, ops: seq<Operation>)
    requires Represents(files, m)
    ensures Represents(Run(files, ops).0, RunMap(m, ops).0)
    ensures Run(files, ops).1 == RunMap(m, ops).1
    decreases |ops|
  {
    hide Represents, Apply, ApplyMap;
    if ops != [] {
      ApplyRefines(files, m, ops[0]);
      ListRefinesMap(Apply(files, ops[0]).0, ApplyMap(m, ops[0]).0, ops[1..]);
    }
  }

  /** A list with distinct names and right sizes stands for some map. */
  lemma {:induction false} EveryListRepresents(files: seq<Entry>) returns (m: map<string, Node>)
    requires Distinct(files) && SizesAgree(files)
    ensures Represents(files, m)
  {
    if files == [] {
      m := map[];
    } else {
      var n := |files| - 1;
      var before := EveryListRepresents(files[..n]);
      m := before[files[n].name := NodeOf(files[n])];
      forall name | name in m ensures Has(files, name) {
        if name != files[n].name {
          assert files[IndexOf(files[..n], name)].name == name;
        }
        HasExactly(files, name);
      }
      forall i | 0 <= i < n ensures files[i].name in m && m[files[i].name] == NodeOf(files[i]) {
        assert files[..n][i] == files[i];
      }
    }
  }

  /** From distinct names, every sequence of operations keeps the names distinct and the sizes right. */
  lemma NamesStayDistinct(files: seq<Entry>, ops: seq<Operation>)
    requires Distinct(files) && SizesAgree(files)
    ensures Distinct(Run(files, ops).0) && SizesAgree(Run(files, ops).0)
  {
    var m := EveryListRepresents(files);
    ListRefinesMap(files, m, ops);
  }

  /** A successful add leaves the old entries and the new one, sorted by name. */
  lemma AddSorts(files: seq<Entry>, op: Operation)
    requires op.AddFile? || op.AddSymlink?
    ensures var e := if op.AddFile? then Entry(op.name, |op.data|, None, op.perms, op.data)
                     else Entry(op.name, 0, Some(op.source), 0x1ff, []);
            var (files', answer) := Apply(files, op);
            if Has(files, op.name) then files' == files && answer == No(Some(AlreadyExists))
            else answer == Yes && Sorted(files') && multiset(files') == multiset(files) + multiset{e}
  {
    hide Sorted, SortByName;
    if op.AddFile? {
      SortSorts(files + [FileEntry(op.name, op.data, op.perms)]);
    } else {
      SortSorts(files + [LinkEntry(op.name, op.source)]);
    }
  }

  function Named(files: seq<Entry>, name: string): nat {
    if files == [] then 0 else (if files[0].name == name then 1 else 0) + Named(files[1..], name)
  }

  lemma {:induction false} NamedOnce(files: seq<Entry>, name: string)
    requires Distinct(files)
    ensures Named(files, name) == if Has(files, name) then 1 else 0
  {
    if files != [] {
      var rest := files[1..];
      assert forall i :: 0 <= i < |rest| ==> rest[i] == files[i + 1];
      NamedOnce(rest, name);
      assert Has(rest, name) ==> files[IndexOf(rest, name) + 1].name == name;
    }
  }

  lemma RepresentsHas(files: seq<Entry>, m: map<string, Node>, name: string)
    requires Represents(files, m) && name in m
    ensures Distinct(files) && Has(files, name)
  {
  }

  /** Removing a name and adding it again always succeeds and leaves exactly one entry for it, with the new contents. */
  lemma RemoveThenAdd(files: seq<Entry>, name: string, data: bytes, perms: nat)
    requires Distinct(files) && SizesAgree(files)
    ensures var removed := Apply(files, Remove(name)).0;
            var (added, answer) := Apply(removed, AddFile(name, data, perms));
            && answer == Yes && Named(added, name) == 1 && Apply(added, Contents(name)).1 == Data(data)
  {
    hide Apply, Represents, Named;
    var m := EveryListRepresents(files);
    ApplyRefines(files, m, Remove(name));
    var removed, m1 := Apply(files, Remove(name)).0, ApplyMap(m, Remove(name)).0;
    ApplyRefines(removed, m1, AddFile(name, data, perms));
    var added, m2 := Apply(removed, AddFile(name, data, perms)).0, ApplyMap(m1, AddFile(name, data, perms)).0;
    ApplyRefines(added, m2, Contents(name));
    RepresentsHas(added, m2, name);
    NamedOnce(added, name);
  }

  // ---------------------------------------------------------------------------
  // Entries by name
  // ---------------------------------------------------------------------------

  predicate FirstNamed(files: seq<Entry>, name: string, i: nat) {
    i < |files| && files[i].name == name && forall j :: 0 <= j < i ==> files[j].name != name
  }

  predicate NoneNamed(files: seq<Entry>, name: string) {
    forall j :: 0 <= j < |files| ==> files[j].name != name
  }

  /** What each operation does to the first entry with the name, and to no other. */
  lemma FirstIsMeant(files: seq<Entry>, name: string, data: bytes, i: nat)
    requires FirstNamed(files, name, i)
    ensures Apply(files, Exists(name)) == (files, Yes) && Apply(files, Contents(name)) == (files, Data(files[i].data))
    ensures Apply(files, Remove(name)) == (files[..i] + files[i + 1..], Yes)
    ensures Apply(files, SetContents(name, data)) == (files[i := Entry(name, |data|, files[i].link, files[i].perms, data)], Yes)
  {
  }

  /** Without an entry of the name nothing is found and nothing changes. */
  lemma NothingIsMeant(files: seq<Entry>, name: string, data: bytes)
    requires NoneNamed(files, name)
    ensures Apply(files, Exists(name)) == (files, No(None)) && Apply(files, Remove(name)) == (files, No(None))
    ensures Apply(files, Contents(name)) == (files, No(Some(NotFound))) && Apply(files, SetContents(name, data)) == (files, No(Some(NotFound)))
  {
  }

  /** A taken target is reported even if there is no source; otherwise the first source entry gets the name in its place. */
  lemma RenamesExactly(files: seq<Entry>, source: string, target: string)
    ensures var (files', answer) := Apply(files, Rename(source, target));
            && (answer == No(Some(AlreadyExists)) <==> !NoneNamed(files, target))
            && (answer == No(Some(NotFound)) <==> NoneNamed(files, target) && NoneNamed(files, source))
            && (answer.No? ==> files' == files)
            && (NoneNamed(files, target) ==> forall i: nat :: FirstNamed(files, source, i) ==>
                  answer == Yes && files' == files[..i] + [files[i].(name := target)] + files[i + 1..])
  {
  }
}
