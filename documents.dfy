/** The documents page (frontend/src/pages/DocumentsPage.tsx): on mount it
    makes sure the `/documents` directory exists in the browser-hosted file
    store, lists it, reads and decodes every `.json` file into a summary,
    drops the files that fail, and shows the survivors newest first, the
    first five of them under "Recent Documents".

    The file store is an argument: absent, or present with the outcomes
    its `mkdir`, `readdir` and `read` calls would have. JSON decoding is an
    abstract partial function from file contents to a record. */
module Documents {
  import opened Seqs

  const DocumentsDir: string := "/documents"
  const JsonSuffix: string := ".json"
  const UntitledTitle: string := "Untitled Document"
  const ServiceUnavailable: string := "File system service is not available"
  const InitFailed: string := "Failed to initialize documents directory. Please try again later."
  const ListFailed: string := "Failed to load documents. Please try again later."
  /** How many documents the "Recent Documents" card shows. */
  const RecentLimit: nat := 5

  type DocumentType = string

  /** A document record as decoded from its file. `title` is `None` when the
      field is missing or null; `updatedAt` is the already-parsed timestamp. */
  datatype DocRecord = DocRecord(id: string, title: Option<string>, docType: DocumentType, updatedAt: int)

  /** `DocumentInfo`: the summary the page lists. */
  datatype DocumentInfo = DocumentInfo(id: string, title: string, docType: DocumentType, updatedAt: int)

  /** What `mkdir` did; a rejection carries the error's `message`, if it has one. */
  datatype MkdirOutcome = MkdirOk | MkdirFailed(message: Option<string>)

  /** What `readdir` did: the entry names, or a rejection. */
  datatype ReaddirOutcome = ReaddirOk(names: seq<string>) | ReaddirFailed

  /** The file-store service as the page finds it: missing altogether, or
      present with the outcome of each call. `read` maps a path to the file's
      contents, `None` when the read is rejected. */
  datatype FileStore =
    | Absent
    | Present(mkdir: MkdirOutcome, readdir: ReaddirOutcome, read: string -> Option<string>)

  /** A call the loader issues to the file store. */
  datatype FsCall = Mkdir(path: string) | Readdir(path: string) | Read(path: string)

  /** The outcome of one load: the list to show, or the message to show. */
  datatype LoadResult = Listed(docs: seq<DocumentInfo>) | Failed(message: string)

  function DocPath(name: string): string {
    DocumentsDir + "/" + name
  }

  predicate IsJsonName(name: string) {
    EndsWith(name, JsonSuffix)
  }

  /** A `mkdir` rejection that the loader ignores: its message mentions
      `exists`. A rejection without a message is not ignored. */
  predicate MentionsExists(message: Option<string>)
    ensures MentionsExists(message) <==> message.Some? && exists i: nat :: OccursAt(message.value, "exists", i)
  {
    if message.Some? then
      ContainsIffOccurs(message.value, "exists");
      Contains(message.value, "exists")
    else false
  }

  /** The entries kept for reading: those named `*.json`, in listing order. */
  function JsonFiles(names: seq<string>): (r: seq<string>)
    ensures forall n :: n in r <==> n in names && IsJsonName(n)
    ensures IsSubseq(r, names)
    ensures forall n :: multiset(r)[n] == if IsJsonName(n) then multiset(names)[n] else 0
  {
    if names == [] then []
    else
      assert names == [names[0]] + names[1..];
      if IsJsonName(names[0]) then [names[0]] + JsonFiles(names[1..])
      else JsonFiles(names[1..])
  }

  /** The summary of a decoded record: the title falls back to
      `UntitledTitle` when it is missing or empty (JavaScript's `||`);
      everything else is copied. */
  function Summarize(rec: DocRecord): (d: DocumentInfo)
    ensures d.id == rec.id && d.docType == rec.docType && d.updatedAt == rec.updatedAt
    ensures d.title != ""
    ensures rec.title.Some? && rec.title.value != "" ==> d.title == rec.title.value
    ensures rec.title == None || rec.title == Some("") ==> d.title == UntitledTitle
  {
    var title := if rec.title.Some? && rec.title.value != "" then rec.title.value else UntitledTitle;
    DocumentInfo(rec.id, title, rec.docType, rec.updatedAt)
  }

  /** Reading and decoding one entry; `None` is the `null` returned when
      either step throws. */
  function LoadFile(read: string -> Option<string>, parse: string -> Option<DocRecord>, name: string): (r: Option<DocumentInfo>)
    ensures read(DocPath(name)) == None ==> r == None
    ensures read(DocPath(name)).Some? && parse(read(DocPath(name)).value) == None ==> r == None
    ensures read(DocPath(name)).Some? && parse(read(DocPath(name)).value).Some? ==>
      r == Some(Summarize(parse(read(DocPath(name)).value).value))
  {
    match read(DocPath(name))
    case None => None
    case Some(content) =>
      match parse(content)
      case None => None
      case Some(rec) => Some(Summarize(rec))
  }

  /** The reads of all kept entries; `Promise.all` keeps input order, so the
      concurrent reads are an in-order map. */
  function LoadEach(read: string -> Option<string>, parse: string -> Option<DocRecord>, names: seq<string>): (r: seq<Option<DocumentInfo>>)
    ensures |r| == |names|
    ensures forall i :: 0 <= i < |names| ==> r[i] == LoadFile(read, parse, names[i])
  {
    if names == [] then [] else [LoadFile(read, parse, names[0])] + LoadEach(read, parse, names[1..])
  }

  /** Each document wrapped as a successful result. */
  function Somes(docs: seq<DocumentInfo>): (r: seq<Option<DocumentInfo>>)
    ensures |r| == |docs|
    ensures forall i :: 0 <= i < |docs| ==> r[i] == Some(docs[i])
  {
    if docs == [] then [] else [Some(docs[0])] + Somes(docs[1..])
  }

  /** `filter(doc => doc !== null)`: the successes, in order, each as often
      as it occurs. */
  function DropFailed(xs: seq<Option<DocumentInfo>>): (r: seq<DocumentInfo>)
    ensures |r| <= |xs|
    ensures forall d :: d in r <==> Some(d) in xs
    ensures forall d :: multiset(r)[d] == multiset(xs)[Some(d)]
    ensures IsSubseq(Somes(r), xs)
  {
    if xs == [] then []
    else
      assert xs == [xs[0]] + xs[1..];
      var rest := DropFailed(xs[1..]);
      if xs[0].Some? then
        var r := [xs[0].value] + rest;
        assert r[1..] == rest;
        r
      else
        assert Somes(rest) != [] ==> Somes(rest)[0] != xs[0];
        rest
  }

  // ----- Ordering: newest `updatedAt` first, stable -----

  predicate NewestFirst(s: seq<DocumentInfo>) {
    forall i, j :: 0 <= i < j < |s| ==> s[i].updatedAt >= s[j].updatedAt
  }

  /** Inserts `d`, which came before every element of `s` in the input,
      ahead of the first element that is not strictly newer than it. */
  function Insert(d: DocumentInfo, s: seq<DocumentInfo>): (r: seq<DocumentInfo>)
    requires NewestFirst(s)
    ensures NewestFirst(r)
    ensures forall x :: x in r <==> x == d || x in s
    ensures multiset(r) == multiset(s) + multiset{d}
  {
    if s == [] || s[0].updatedAt <= d.updatedAt then [d] + s
    else
      assert s == [s[0]] + s[1..];
      var rest := Insert(d, s[1..]);
      forall x | x in rest ensures s[0].updatedAt >= x.updatedAt {
        if x != d {
          var k :| 0 <= k < |s[1..]| && s[1..][k] == x;
          assert s[k + 1] == x;
        }
      }
      NewestFirstCons(s[0], rest);
      [s[0]] + rest
  }

  lemma NewestFirstCons(x: DocumentInfo, s: seq<DocumentInfo>)
    requires NewestFirst(s)
    requires forall y :: y in s ==> x.updatedAt >= y.updatedAt
    ensures NewestFirst([x] + s)
  {
    var r := [x] + s;
    forall i, j | 0 <= i < j < |r| ensures r[i].updatedAt >= r[j].updatedAt {
      assert r[j] == s[j - 1] && r[j] in s;
      if i > 0 {
        assert r[i] == s[i - 1];
      }
    }
  }

  /** `sort((a, b) => b.updatedAt - a.updatedAt)`: a stable sort, newest first. */
  function SortNewestFirst(s: seq<DocumentInfo>): (r: seq<DocumentInfo>)
    ensures NewestFirst(r)
    ensures multiset(r) == multiset(s)
  {
    if s == [] then []
    else
      assert s == [s[0]] + s[1..];
      Insert(s[0], SortNewestFirst(s[1..]))
  }

  /** The documents of `s` stamped `t`, in their order in `s`. */
  function AtTime(s: seq<DocumentInfo>, t: int): (r: seq<DocumentInfo>)
    ensures forall d :: d in r <==> d in s && d.updatedAt == t
  {
    if s == [] then []
    else if s[0].updatedAt == t then [s[0]] + AtTime(s[1..], t)
    else AtTime(s[1..], t)
  }

  lemma {:induction false} InsertAtTime(d: DocumentInfo, s: seq<DocumentInfo>, t: int)
    requires NewestFirst(s)
    ensures AtTime(Insert(d, s), t) == if d.updatedAt == t then [d] + AtTime(s, t) else AtTime(s, t)
    decreases |s|
  {
    if s == [] || s[0].updatedAt <= d.updatedAt {
      assert ([d] + s)[1..] == s;
    } else {
      var rest := Insert(d, s[1..]);
      assert ([s[0]] + rest)[1..] == rest;
      InsertAtTime(d, s[1..], t);
    }
  }

  /** Stability: documents with equal timestamps keep their listing order. */
  lemma {:induction false} SortStable(s: seq<DocumentInfo>, t: int)
    ensures AtTime(SortNewestFirst(s), t) == AtTime(s, t)
    decreases |s|
  {
    if s != [] {
      SortStable(s[1..], t);
      InsertAtTime(s[0], SortNewestFirst(s[1..]), t);
    }
  }

  lemma {:induction false} NewestFirstHeadIsMax(s: seq<DocumentInfo>, t: int)
    requires NewestFirst(s) && AtTime(s, t) != []
    ensures s[0].updatedAt >= t
  {
    var d := AtTime(s, t)[0];
    assert d in AtTime(s, t);
    var k :| 0 <= k < |s| && s[k] == d;
  }

  /** Newest-first order together with stability determines the list. */
  lemma {:induction false} StableNewestFirstUnique(a: seq<DocumentInfo>, b: seq<DocumentInfo>)
    requires NewestFirst(a) && NewestFirst(b)
    requires forall t :: AtTime(a, t) == AtTime(b, t)
    ensures a == b
    decreases |a|
  {
    if a != [] {
      assert AtTime(a, a[0].updatedAt) == [a[0]] + AtTime(a[1..], a[0].updatedAt);
    }
    if b != [] {
      assert AtTime(b, b[0].updatedAt) == [b[0]] + AtTime(b[1..], b[0].updatedAt);
    }
    if a != [] && b != [] {
      var ta, tb := a[0].updatedAt, b[0].updatedAt;
      assert AtTime(b, ta) == AtTime(a, ta);
      assert AtTime(a, tb) == AtTime(b, tb);
      NewestFirstHeadIsMax(b, ta);
      NewestFirstHeadIsMax(a, tb);
      assert a[0] == b[0];
      forall u ensures AtTime(a[1..], u) == AtTime(b[1..], u) {
        AtTimeSameHead(a, b, u);
      }
      StableNewestFirstUnique(a[1..], b[1..]);
      assert a == [a[0]] + a[1..] && b == [b[0]] + b[1..];
    }
  }

  lemma AtTimeSameHead(a: seq<DocumentInfo>, b: seq<DocumentInfo>, u: int)
    requires a != [] && b != [] && a[0] == b[0] && AtTime(a, u) == AtTime(b, u)
    ensures AtTime(a[1..], u) == AtTime(b[1..], u)
  {
    if a[0].updatedAt == u {
      assert AtTime(a, u)[1..] == AtTime(a[1..], u);
      assert AtTime(b, u)[1..] == AtTime(b[1..], u);
    }
  }

  /** The sort is THE stable newest-first arrangement of its input: any list
      that is newest first and keeps the input order of equal timestamps is
      the sorted one. */
  lemma SortIsStableNewestFirst(s: seq<DocumentInfo>, r: seq<DocumentInfo>)
    requires NewestFirst(r) && forall t :: AtTime(r, t) == AtTime(s, t)
    ensures r == SortNewestFirst(s)
  {
    forall t ensures AtTime(r, t) == AtTime(SortNewestFirst(s), t) {
      SortStable(s, t);
    }
    StableNewestFirstUnique(r, SortNewestFirst(s));
  }

  // ----- The listing pipeline -----

  /** The list built from a directory listing: read and decode the `.json`
      entries, drop the failures, sort newest first. */
  function LoadedDocs(read: string -> Option<string>, parse: string -> Option<DocRecord>, names: seq<string>): (r: seq<DocumentInfo>)
    ensures NewestFirst(r)
    ensures multiset(r) == multiset(DropFailed(LoadEach(read, parse, JsonFiles(names))))
  {
    SortNewestFirst(DropFailed(LoadEach(read, parse, JsonFiles(names))))
  }

  /** How many listed entries are `.json` files that read and decode. */
  function CountLoaded(read: string -> Option<string>, parse: string -> Option<DocRecord>, names: seq<string>): nat {
    if names == [] then 0
    else
      var here := if IsJsonName(names[0]) && LoadFile(read, parse, names[0]).Some? then 1 else 0;
      here + CountLoaded(read, parse, names[1..])
  }

  lemma {:induction false} LoadedPrefixCount(read: string -> Option<string>, parse: string -> Option<DocRecord>, names: seq<string>)
    ensures |DropFailed(LoadEach(read, parse, JsonFiles(names)))| == CountLoaded(read, parse, names)
    decreases |names|
  {
    if names != [] {
      var n := names[0];
      LoadedPrefixCount(read, parse, names[1..]);
      var json := JsonFiles(names[1..]);
      if IsJsonName(n) {
        assert JsonFiles(names) == [n] + json;
        var loads := LoadEach(read, parse, json);
        assert ([n] + json)[1..] == json;
        assert LoadEach(read, parse, [n] + json) == [LoadFile(read, parse, n)] + loads;
        assert ([LoadFile(read, parse, n)] + loads)[1..] == loads;
      } else {
        assert JsonFiles(names) == json;
      }
    }
  }

  /** One failed entry costs only itself: the list has exactly one document
      per `.json` entry that reads and decodes. */
  lemma LoadedDocsCount(read: string -> Option<string>, parse: string -> Option<DocRecord>, names: seq<string>)
    ensures |LoadedDocs(read, parse, names)| == CountLoaded(read, parse, names)
  {
    var docs := LoadedDocs(read, parse, names);
    assert |docs| == |multiset(docs)|;
    LoadedPrefixCount(read, parse, names);
  }

  /** A document is listed exactly when some `.json` entry reads and decodes
      to it; nothing else reaches the list. */
  lemma LoadedDocsMembers(read: string -> Option<string>, parse: string -> Option<DocRecord>, names: seq<string>, d: DocumentInfo)
    ensures d in LoadedDocs(read, parse, names) <==>
      exists n :: n in names && IsJsonName(n) && LoadFile(read, parse, n) == Some(d)
  {
    var loads := LoadEach(read, parse, JsonFiles(names));
    var docs := LoadedDocs(read, parse, names);
    assert d in docs <==> Some(d) in loads by {
      assert d in docs <==> multiset(docs)[d] > 0;
      assert multiset(docs)[d] == multiset(DropFailed(loads))[d] == multiset(loads)[Some(d)];
    }
    SuccessfulLoads(read, parse, names, d);
  }

  lemma SuccessfulLoads(read: string -> Option<string>, parse: string -> Option<DocRecord>, names: seq<string>, d: DocumentInfo)
    ensures Some(d) in LoadEach(read, parse, JsonFiles(names)) <==>
      exists n :: n in names && IsJsonName(n) && LoadFile(read, parse, n) == Some(d)
  {
    var json := JsonFiles(names);
    var loads := LoadEach(read, parse, json);
    if Some(d) in loads {
      var i :| 0 <= i < |loads| && loads[i] == Some(d);
      assert json[i] in json;
    }
    if n :| n in names && IsJsonName(n) && LoadFile(read, parse, n) == Some(d) {
      assert n in json;
      var i :| 0 <= i < |json| && json[i] == n;
      assert loads[i] == Some(d);
    }
  }

  /** Only `.json` entries are ever read: what `read` returns for any other
      path cannot change the list. */
  lemma LoadedDocsIgnoreOtherReads(read1: string -> Option<string>, read2: string -> Option<string>,
                                   parse: string -> Option<DocRecord>, names: seq<string>)
    requires forall n :: n in names && IsJsonName(n) ==> read1(DocPath(n)) == read2(DocPath(n))
    ensures LoadedDocs(read1, parse, names) == LoadedDocs(read2, parse, names)
  {
    var json := JsonFiles(names);
    assert LoadEach(read1, parse, json) == LoadEach(read2, parse, json) by {
      forall i | 0 <= i < |json| ensures LoadEach(read1, parse, json)[i] == LoadEach(read2, parse, json)[i] {
        assert json[i] in json;
      }
    }
  }

  /** Records with equal timestamps keep their directory-listing order. */
  lemma LoadedDocsStable(read: string -> Option<string>, parse: string -> Option<DocRecord>, names: seq<string>, t: int)
    ensures AtTime(LoadedDocs(read, parse, names), t) == AtTime(DropFailed(LoadEach(read, parse, JsonFiles(names))), t)
  {
    SortStable(DropFailed(LoadEach(read, parse, JsonFiles(names))), t);
  }

  // ----- The whole load: calls issued and outcome -----

  /** The calls `loadDocuments` issues to the file store, in order: none
      without the service, then `mkdir`, then `readdir`, then the reads. */
  function IssuedCalls(store: FileStore): (r: seq<FsCall>)
    ensures r == [] <==> store.Absent?
    ensures r != [] ==> r[0] == Mkdir(DocumentsDir)
    ensures |r| >= 2 ==> r[1] == Readdir(DocumentsDir)
    ensures forall k :: 2 <= k < |r| ==> r[k].Read?
  {
    match store
    case Absent => []
    case Present(mkdir, readdir, read) =>
      if mkdir.MkdirFailed? && !MentionsExists(mkdir.message) then [Mkdir(DocumentsDir)]
      else
        [Mkdir(DocumentsDir), Readdir(DocumentsDir)] +
        match readdir
        case ReaddirFailed => []
        case ReaddirOk(names) => ReadCalls(JsonFiles(names))
  }

  function ReadCalls(names: seq<string>): (r: seq<FsCall>)
    ensures |r| == |names|
    ensures forall i :: 0 <= i < |names| ==> r[i] == Read(DocPath(names[i]))
  {
    if names == [] then [] else [Read(DocPath(names[0]))] + ReadCalls(names[1..])
  }

  /** Without the service no call is made; a directory-creation failure
      stops before listing; every read is of a listed `.json` entry. */
  lemma IssuedCallsShape(store: FileStore)
    ensures store.Absent? ==> IssuedCalls(store) == []
    ensures store.Present? && store.mkdir.MkdirFailed? && !MentionsExists(store.mkdir.message) ==>
      IssuedCalls(store) == [Mkdir(DocumentsDir)]
    ensures forall c :: c in IssuedCalls(store) && c.Read? ==>
      store.Present? && store.readdir.ReaddirOk? &&
      exists n :: n in store.readdir.names && IsJsonName(n) && c.path == DocPath(n)
  {
    if store.Present? && store.readdir.ReaddirOk? {
      var json := JsonFiles(store.readdir.names);
      forall c | c in IssuedCalls(store) && c.Read?
        ensures exists n :: n in store.readdir.names && IsJsonName(n) && c.path == DocPath(n)
      {
        var calls := ReadCalls(json);
        assert c in calls;
        var i :| 0 <= i < |calls| && calls[i] == c;
        assert json[i] in json;
      }
    }
  }

  /** The single outcome of `loadDocuments`. */
  function LoadOutcome(store: FileStore, parse: string -> Option<DocRecord>): (r: LoadResult)
    ensures store.Absent? ==> r == Failed(ServiceUnavailable)
    ensures r.Failed? ==> r.message in {ServiceUnavailable, InitFailed, ListFailed}
    ensures r.Listed? ==> store.Present? && store.readdir.ReaddirOk? && NewestFirst(r.docs)
    ensures r.Listed? ==> r.docs == LoadedDocs(store.read, parse, store.readdir.names)
  {
    match store
    case Absent => Failed(ServiceUnavailable)
    case Present(mkdir, readdir, read) =>
      if mkdir.MkdirFailed? && !MentionsExists(mkdir.message) then Failed(InitFailed)
      else
        match readdir
        case ReaddirFailed => Failed(ListFailed)
        case ReaddirOk(names) => Listed(LoadedDocs(read, parse, names))
  }

  /** The error rules: a `mkdir` rejection mentioning `exists` counts as
      success, any other one is the initialisation error; a `readdir`
      rejection is the listing error. */
  lemma LoadOutcomeErrors(store: FileStore, parse: string -> Option<DocRecord>)
    requires store.Present?
    ensures store.mkdir.MkdirFailed? && MentionsExists(store.mkdir.message) ==>
      LoadOutcome(store, parse) == LoadOutcome(store.(mkdir := MkdirOk), parse)
    ensures store.mkdir.MkdirFailed? && !MentionsExists(store.mkdir.message) ==>
      LoadOutcome(store, parse) == Failed(InitFailed)
    ensures !(store.mkdir.MkdirFailed? && !MentionsExists(store.mkdir.message)) ==>
      (LoadOutcome(store, parse) == Failed(ListFailed) <==> store.readdir.ReaddirFailed?)
  {
  }

  /** The calls and the outcome agree: no call iff the service is missing;
      the calls stop at `mkdir` iff the outcome is the initialisation
      error; a listing error stops right after `readdir`; a listed outcome
      follows one read per `.json` entry. */
  lemma IssuedCallsMatchOutcome(store: FileStore, parse: string -> Option<DocRecord>)
    ensures IssuedCalls(store) == [] <==> LoadOutcome(store, parse) == Failed(ServiceUnavailable)
    ensures IssuedCalls(store) == [Mkdir(DocumentsDir)] <==> LoadOutcome(store, parse) == Failed(InitFailed)
    ensures LoadOutcome(store, parse) == Failed(ListFailed) ==>
      IssuedCalls(store) == [Mkdir(DocumentsDir), Readdir(DocumentsDir)]
    ensures LoadOutcome(store, parse).Listed? ==>
      IssuedCalls(store) == [Mkdir(DocumentsDir), Readdir(DocumentsDir)] + ReadCalls(JsonFiles(store.readdir.names))
  {
    if store.Present? && !(store.mkdir.MkdirFailed? && !MentionsExists(store.mkdir.message)) {
      assert |IssuedCalls(store)| >= 2;
    }
  }

  /** The "Recent Documents" card: `documents.slice(0, 5)`. */
  function RecentDocuments(docs: seq<DocumentInfo>): (r: seq<DocumentInfo>)
    ensures |r| == if |docs| < RecentLimit then |docs| else RecentLimit
    ensures r == docs[..|r|]
  {
    if |docs| < RecentLimit then docs else docs[..RecentLimit]
  }

  /** On a newest-first list the card shows the newest documents: none left
      out is newer than one shown. */
  lemma RecentAreNewest(docs: seq<DocumentInfo>)
    requires NewestFirst(docs)
    ensures forall i, j :: 0 <= i < |RecentDocuments(docs)| <= j < |docs| ==>
      RecentDocuments(docs)[i].updatedAt >= docs[j].updatedAt
  {
  }

  /** Three records stamped in January, March and February come out
      March, February, January. */
  lemma SortExample()
    ensures
      var a := DocumentInfo("a", "A", "doc", 20240101);
      var b := DocumentInfo("b", "B", "doc", 20240301);
      var c := DocumentInfo("c", "C", "doc", 20240201);
      SortNewestFirst([a, b, c]) == [b, c, a]
  {
    var a := DocumentInfo("a", "A", "doc", 20240101);
    var b := DocumentInfo("b", "B", "doc", 20240301);
    var c := DocumentInfo("c", "C", "doc", 20240201);
    assert [a, b, c][1..] == [b, c] && [b, c][1..] == [c] && [c][1..] == [];
    assert SortNewestFirst([c]) == [c];
    assert SortNewestFirst([b, c]) == Insert(b, [c]) == [b, c];
    assert [b, c][1..] == [c];
    assert Insert(a, [b, c]) == [b] + Insert(a, [c]) == [b, c, a];
  }

  /** The page's state: `documents`, `isLoading` and `error`. */
  class DocumentsPage {
    var documents: seq<DocumentInfo>
    var isLoading: bool
    var error: Option<string>

    constructor ()
      ensures documents == [] && isLoading && error == None
    {
      documents := [];
      isLoading := true;
      error := None;
    }

    /** `loadDocuments`: sets `documents` on success or `error` on a
        failure, never both, and always clears `isLoading`. */
    method LoadDocuments(store: FileStore, parse: string -> Option<DocRecord>)
      modifies this
      ensures !isLoading
      ensures LoadOutcome(store, parse).Listed? ==>
        documents == LoadOutcome(store, parse).docs && error == old(error)
      ensures LoadOutcome(store, parse).Failed? ==>
        documents == old(documents) && error == Some(LoadOutcome(store, parse).message)
    {
      match store {
        case Absent =>
          error := Some(ServiceUnavailable);
        case Present(mkdir, readdir, read) =>
          if mkdir.MkdirFailed? && !MentionsExists(mkdir.message) {
            error := Some(InitFailed);
          } else {
            match readdir {
              case ReaddirFailed =>
                error := Some(ListFailed);
              case ReaddirOk(names) =>
                documents := LoadedDocs(read, parse, names);
            }
          }
      }
      // the `finally` block
      isLoading := false;
    }
  }

  /** From the page's initial state, a load ends with exactly one of a list
      and an error message. */
  method LoadOnMount(store: FileStore, parse: string -> Option<DocRecord>) returns (page: DocumentsPage)
    ensures !page.isLoading
    ensures page.error.Some? <==> LoadOutcome(store, parse).Failed?
    ensures page.error.Some? ==> page.documents == [] && page.error.value in {ServiceUnavailable, InitFailed, ListFailed}
    ensures page.error.Some? ==> page.error.value == LoadOutcome(store, parse).message
    ensures store.Absent? ==> page.error == Some(ServiceUnavailable)
    ensures page.error == None ==> NewestFirst(page.documents)
    ensures page.error == None ==> page.documents == LoadOutcome(store, parse).docs
    ensures page.error == None ==>
      store.Present? && store.readdir.ReaddirOk? && page.documents == LoadedDocs(store.read, parse, store.readdir.names)
  {
    page := new DocumentsPage();
    page.LoadDocuments(store, parse);
  }
}
