/**
  The index cache of src/indexer/cache.ts: the in-memory map of file hashes,
  the projection of a file's nodes that its comment hash is computed from,
  and the replace-or-append step of the persistent index. The hash function
  (sha1 over the JSON text of the projection) is a parameter.
*/
module Cache {
  import opened Wrappers
  import opened Strings
  import opened Types

  datatype CacheEntry = CacheEntry(fileHash: string, commentHash: string)

  /** The in-memory cache: file path to its last hashes. */
  class IndexCache {
    var store: map<string, CacheEntry>

    constructor ()
      ensures store == map[]
    {
      store := map[];
    }

    /** `get(file)`: the entry stored for `file`, if any. */
    function Get(file: string): (r: Option<CacheEntry>)
      reads this
      ensures r.Some? <==> file in store
    {
      if file in store then Some(store[file]) else None
    }

    /** `set(file, entry)`: afterwards `file` yields `entry`, and every other file what it yielded before. */
    method Set(file: string, entry: CacheEntry)
      modifies this
      ensures store == old(store)[file := entry]
      ensures Get(file) == Some(entry)
      ensures forall f :: f != file ==> Get(f) == old(Get(f))
    {
      store := store[file := entry];
    }
  }

  // ---------------------------------------------------------------------
  // The comment hash

  /** One node's part of the hashed payload: feature, role, dotted order, desc and comma-joined tags. */
  datatype PayloadEntry = PayloadEntry(f: string, r: string, o: string, d: string, t: string)

  /** `n.meta?.desc || ''`. */
  function DescOf(n: Node): string {
    if n.meta.Some? && n.meta.value.desc.Some? then n.meta.value.desc.value else ""
  }

  /** `(n.meta?.tags || [])`. */
  function TagsOf(n: Node): seq<string> {
    if n.meta.Some? && n.meta.value.tags.Some? then n.meta.value.tags.value else []
  }

  /** `n.order && n.order.levels ? n.order.levels.join('.') : ''`. */
  function PayloadOrder(n: Node): string {
    if n.order.Some? then LevelsToString(n.order.value.levels) else ""
  }

  function PayloadOf(n: Node): PayloadEntry {
    PayloadEntry(n.feature, RoleName(n.role), PayloadOrder(n), DescOf(n), Join(TagsOf(n), ","))
  }

  /** The payload of `computeCommentHash`: one entry per node, in node order. */
  function Payload(nodes: seq<Node>): (r: seq<PayloadEntry>)
    ensures |r| == |nodes|
    ensures forall i :: 0 <= i < |nodes| ==> r[i] == PayloadOf(nodes[i])
  {
    if nodes == [] then [] else Payload(nodes[..|nodes| - 1]) + [PayloadOf(nodes[|nodes| - 1])]
  }

  /** `computeCommentHash`, with `hash` standing for sha1 of the JSON text. */
  function CommentHash(hash: seq<PayloadEntry> -> string, nodes: seq<Node>): string {
    hash(Payload(nodes))
  }

  /** The order part of the payload is the order string the rest of the engine uses. */
  lemma PayloadOrderIsOrderString(n: Node)
    ensures PayloadOrder(n) == OrderToString(n.order)
  {
  }

  /** Two nodes say the same thing in a comment: same feature, role, order string, desc and tags. */
  predicate SameComment(a: Node, b: Node) {
    && a.feature == b.feature
    && a.role == b.role
    && OrderToString(a.order) == OrderToString(b.order)
    && DescOf(a) == DescOf(b)
    && Join(TagsOf(a), ",") == Join(TagsOf(b), ",")
  }

  lemma RoleNameInjective(a: Role, b: Role)
    requires RoleName(a) == RoleName(b)
    ensures a == b
  {
  }

  /** Two nodes have the same payload entry exactly when they say the same thing. */
  lemma PayloadOfExactly(a: Node, b: Node)
    ensures PayloadOf(a) == PayloadOf(b) <==> SameComment(a, b)
  {
    PayloadOrderIsOrderString(a);
    PayloadOrderIsOrderString(b);
    if RoleName(a.role) == RoleName(b.role) {
      RoleNameInjective(a.role, b.role);
    }
  }

  /** Two node lists say the same thing, node by node. */
  predicate SameComments(a: seq<Node>, b: seq<Node>) {
    |a| == |b| && forall i :: 0 <= i < |a| ==> SameComment(a[i], b[i])
  }

  /** Two node lists have the same payload exactly when they say the same thing, node by node. */
  lemma PayloadExactly(a: seq<Node>, b: seq<Node>)
    ensures Payload(a) == Payload(b) <==> SameComments(a, b)
  {
    if Payload(a) == Payload(b) {
      SamePayloadSameComments(a, b);
    }
    if SameComments(a, b) {
      SameCommentsSamePayload(a, b);
    }
  }

  lemma SamePayloadSameComments(a: seq<Node>, b: seq<Node>)
    requires Payload(a) == Payload(b)
    ensures SameComments(a, b)
  {
    forall i | 0 <= i < |a| ensures SameComment(a[i], b[i]) {
      assert Payload(a)[i] == Payload(b)[i];
      PayloadOfExactly(a[i], b[i]);
    }
  }

  lemma SameCommentsSamePayload(a: seq<Node>, b: seq<Node>)
    requires SameComments(a, b)
    ensures Payload(a) == Payload(b)
  {
    forall i | 0 <= i < |a| ensures Payload(a)[i] == Payload(b)[i] {
      PayloadOfExactly(a[i], b[i]);
    }
  }

  /** A node moved to another id, file or line, or retitled, says the same thing. */
  lemma RelabelledSameComment(n: Node, id: string, file: string, line: nat, title: Option<string>)
    ensures var m := n.(id := id, file := file, line := line,
                        meta := if n.meta.Some? then Some(n.meta.value.(title := title)) else None);
      SameComment(n, m)
  {
  }

  /** So node lists that differ only in ids, files, lines or titles have the same comment hash. */
  lemma CommentHashIgnoresPlace(hash: seq<PayloadEntry> -> string, a: seq<Node>, b: seq<Node>)
    requires |a| == |b|
    requires forall i :: 0 <= i < |a| ==> b[i] == a[i].(id := b[i].id, file := b[i].file, line := b[i].line,
      meta := if a[i].meta.Some? then Some(a[i].meta.value.(title := if b[i].meta.Some? then b[i].meta.value.title else None)) else None)
    ensures CommentHash(hash, a) == CommentHash(hash, b)
  {
    forall i | 0 <= i < |a| ensures SameComment(a[i], b[i]) {
      RelabelledSameComment(a[i], b[i].id, b[i].file, b[i].line, if b[i].meta.Some? then b[i].meta.value.title else None);
    }
    PayloadExactly(a, b);
  }

  // ---------------------------------------------------------------------
  // The persistent index

  datatype PersistEntry = PersistEntry(file: string, fileHash: string, commentHash: string, nodes: seq<Node>)

  /** `list.findIndex(e => e.file === file)`. */
  function FindIndex(list: seq<PersistEntry>, file: string): (r: int)
    ensures -1 <= r < |list|
    ensures r == -1 <==> forall i :: 0 <= i < |list| ==> list[i].file != file
    ensures r >= 0 ==> list[r].file == file && forall i :: 0 <= i < r ==> list[i].file != file
  {
    if list == [] then -1
    else if list[0].file == file then 0
    else
      var j := FindIndex(list[1..], file);
      if j == -1 then -1 else j + 1
  }

  /** The entry of `file` in the index, the first one when several are listed. */
  function Lookup(list: seq<PersistEntry>, file: string): Option<PersistEntry> {
    var i := FindIndex(list, file);
    if i == -1 then None else Some(list[i])
  }

  /**
    The list step of `upsertPersistentEntry` (cache.ts:99-104): the first
    entry of the same file is replaced where it stands, or the entry is
    appended when the file has none. Every other entry stays where it is.
  */
  function Upsert(list: seq<PersistEntry>, entry: PersistEntry): (r: seq<PersistEntry>)
    ensures |r| == if FindIndex(list, entry.file) == -1 then |list| + 1 else |list|
    ensures forall i :: 0 <= i < |list| && i != FindIndex(list, entry.file) ==> r[i] == list[i]
    ensures forall i :: 0 <= i < |r| ==> r[i] == entry || (i < |list| && r[i] == list[i])
    ensures Lookup(r, entry.file) == Some(entry)
  {
    var idx := FindIndex(list, entry.file);
    if idx >= 0 then
      FindIndexIs(list[idx := entry], entry.file, idx);
      list[idx := entry]
    else
      FindIndexIs(list + [entry], entry.file, |list|);
      list + [entry]
  }

  /** The first entry of `file` is at `i`. */
  lemma FindIndexIs(list: seq<PersistEntry>, file: string, i: nat)
    requires i < |list| && list[i].file == file
    requires forall j :: 0 <= j < i ==> list[j].file != file
    ensures FindIndex(list, file) == i
  {
  }

  /** Every other file's entry is looked up as before. */
  lemma UpsertLookupOther(list: seq<PersistEntry>, entry: PersistEntry, file: string)
    requires file != entry.file
    ensures Lookup(Upsert(list, entry), file) == Lookup(list, file)
  {
    var r := Upsert(list, entry);
    var j := FindIndex(list, file);
    if j != -1 {
      assert r[j] == list[j];
      FindIndexIs(r, file, j);
    }
  }

  /** Upserting the same entry again changes nothing. */
  lemma UpsertIdempotent(list: seq<PersistEntry>, entry: PersistEntry)
    ensures Upsert(Upsert(list, entry), entry) == Upsert(list, entry)
  {
    var r := Upsert(list, entry);
    var i := FindIndex(r, entry.file);
    assert r[i] == entry;
    assert r[i := entry] == r;
  }
}
