/**
 * From the writer's side: an item whose pieces were laid out somewhere in the file, in `idat` or in
 * other items, and whose location entry says where, has exactly these pieces, in order.
 */
module LaidOutItems {
  import opened Bytes
  import opened ItemData
  import opened ItemResolver

  /** A piece of at least one byte, in the source it is taken from. */
  datatype Piece = Piece(source: seq<Byte>, start: nat, length: nat)

  predicate ProperPiece(p: Piece) { 0 < p.length && p.start + p.length <= |p.source| <= U64_MAX }

  function Cut(p: Piece): seq<Byte>
    requires ProperPiece(p)
  {
    p.source[p.start..p.start + p.length]
  }

  /** The bytes of the pieces. */
  function Cuts(pieces: seq<Piece>): (r: seq<seq<Byte>>)
    requires forall i :: 0 <= i < |pieces| ==> ProperPiece(pieces[i])
    ensures |r| == |pieces| && forall i :: 0 <= i < |r| ==> r[i] == Cut(pieces[i])
  {
    seq(|pieces|, i requires 0 <= i < |pieces| => Cut(pieces[i]))
  }

  predicate IsReference(e: RefEdge, id: U32) { e.refType == FourCC('i', 'l', 'o', 'c') && e.fromItem == id }

  /** The numbers of the `iloc` references of the item in the table, in ascending order. */
  ghost predicate AreReferences(edges: seq<RefEdge>, id: U32, order: seq<nat>) {
    && (forall j, k :: 0 <= j < k < |order| ==> order[j] < order[k])
    && (forall j :: 0 <= j < |order| ==> order[j] < |edges|)
    && forall e: nat :: e < |edges| ==>
         (e in order <==> IsReference(edges[e], id))
  }

  /** The bytes that extent `i` of an item is cut from, as the entry was written. */
  ghost function WrittenSource(env: Env, loc: Location, order: seq<nat>, i: nat, fuel: nat): Option<seq<Byte>>
    requires i < |loc.extents| && fuel > 0 && forall j :: 0 <= j < |order| ==> order[j] < |env.props.edges|
  {
    var props := env.props;
    if loc.constructionMethod == 0 then Some(env.file)
    else if loc.constructionMethod == 1 then
      (if props.haveIdat && props.idatOffset <= props.idatEnd <= |env.file| then
         Some(env.file[props.idatOffset..props.idatEnd])
       else None)
    else
      var number := if props.indexSize > 0 then loc.extents[i].index else i + 1;
      if 1 <= number <= |order| && !props.edgesTruncated then
        Flatten(env, props.edges[order[number - 1]].toItem, fuel - 1)
      else None
  }

  /** The data is in this file: data reference 0, or for the item that is opened, the one that was given for it. */
  predicate Here(env: Env, loc: Location, id: U32) {
    loc.dataReferenceIndex == 0 || (id == env.root && env.allowedRef == loc.dataReferenceIndex)
  }

  /** Location `at` is the first one of the item and describes these pieces. */
  ghost predicate LaidOut(env: Env, id: U32, at: nat, order: seq<nat>, pieces: seq<Piece>, fuel: nat) {
    && fuel > 0 && at < |env.props.locations| && AreReferences(env.props.edges, id, order)
    && (forall j :: 0 <= j < at ==> env.props.locations[j].itemId != id)
    && var loc := env.props.locations[at];
       && loc.itemId == id && loc.constructionMethod <= 2 && Here(env, loc, id)
       && !loc.extentTruncated && !loc.lengthOverflow && 0 < loc.extentCount == |loc.extents| == |pieces|
       && (forall i :: 0 <= i < |pieces| ==>
             && ProperPiece(pieces[i])
             && WrittenSource(env, loc, order, i, fuel) == Some(pieces[i].source)
             && pieces[i].start == loc.baseOffset + loc.extents[i].offset && pieces[i].length == loc.extents[i].length)
  }

  lemma {:induction false} FirstLocation(locations: seq<Location>, id: U32, at: nat)
    requires at < |locations| && locations[at].itemId == id && forall j :: 0 <= j < at ==> locations[j].itemId != id
    ensures LookupLocation(locations, id) == Some(locations[at])
  {
    if at > 0 {
      FirstLocation(locations[1..], id, at - 1);
    }
  }

  lemma OrderWithoutLast(edges: seq<RefEdge>, id: U32, order: seq<nat>)
    returns (rest: seq<nat>)
    requires AreReferences(edges, id, order) && edges != []
    ensures AreReferences(edges[..|edges| - 1], id, rest)
    ensures order == if IsReference(edges[|edges| - 1], id) then rest + [|edges| - 1] else rest
  {
    rest := order;
    var n := |edges| - 1;
    var last := if order == [] then 0 else order[|order| - 1];
    if IsReference(edges[n], id) {
      var k :| 0 <= k < |order| && order[k] == n;
      assert k == |order| - 1;
      rest := order[..|order| - 1];
      forall e: nat | e < n ensures e in rest <==> IsReference(edges[e], id) {
        if e in order {
          var j :| 0 <= j < |order| && order[j] == e;
          assert rest[j] == e;
        }
      }
    } else {
      assert n !in order;
    }
  }

  /** The targets are those of the numbered references. */
  ghost predicate AreTargets(targets: seq<U32>, edges: seq<RefEdge>, order: seq<nat>) {
    && |targets| == |order|
    && forall j :: 0 <= j < |order| ==> order[j] < |edges| && targets[j] == edges[order[j]].toItem
  }

  lemma NoReferences(edges: seq<RefEdge>, id: U32, order: seq<nat>)
    requires AreReferences(edges, id, order)
    ensures edges == [] ==> order == []
  {
    var first := if order == [] then 0 else order[0];
    assert edges == [] ==> |order| == 0;
  }

  lemma MoreTargets(targets: seq<U32>, edges: seq<RefEdge>, order: seq<nat>, last: nat)
    requires edges != [] && AreTargets(targets, edges[..|edges| - 1], order) && last == |edges| - 1
    ensures AreTargets(targets, edges, order) && AreTargets(targets + [edges[last].toItem], edges, order + [last])
  {
  }

  /** The n-th `iloc` reference of the item is the n-th target. */
  lemma {:induction false} TargetsInOrder(edges: seq<RefEdge>, id: U32, order: seq<nat>)
    requires AreReferences(edges, id, order)
    ensures AreTargets(IlocTargets(edges, id), edges, order)
  {
    hide *;
    if edges == [] {
      NoReferences(edges, id, order);
      NoTargets(id);
    } else {
      var n := |edges| - 1;
      var rest := OrderWithoutLast(edges, id, order);
      TargetsInOrder(edges[..n], id, rest);
      OneMoreTarget(edges, id);
      MoreTargets(IlocTargets(edges[..n], id), edges, rest, n);
    }
  }

  lemma NoTargets(id: U32)
    ensures AreTargets(IlocTargets([], id), [], [])
  {
  }

  lemma OneMoreTarget(edges: seq<RefEdge>, id: U32)
    requires edges != []
    ensures var e, before := edges[|edges| - 1], IlocTargets(edges[..|edges| - 1], id);
            IlocTargets(edges, id) == if IsReference(e, id) then before + [e.toItem] else before
  {
  }

  lemma SourceIsWritten(env: Env, id: U32, at: nat, order: seq<nat>, pieces: seq<Piece>, i: nat, fuel: nat)
    requires LaidOut(env, id, at, order, pieces, fuel) && i < |pieces|
    ensures SourceBytes(env, env.props.locations[at], i, fuel) == Some(pieces[i].source)
  {
    TargetsInOrder(env.props.edges, id, order);
    var loc := env.props.locations[at];
    assert WrittenSource(env, loc, order, i, fuel) == Some(pieces[i].source);
  }

  lemma PieceIsExtent(env: Env, id: U32, at: nat, order: seq<nat>, pieces: seq<Piece>, i: nat, fuel: nat)
    requires LaidOut(env, id, at, order, pieces, fuel) && i < |pieces|
    ensures ExtentBytes(env, env.props.locations[at], i, fuel) == Some(Cut(pieces[i]))
  {
    SourceIsWritten(env, id, at, order, pieces, i, fuel);
    assert ProperPiece(pieces[i]);
    hide SourceBytes;
    hide WrittenSource;
    hide AreReferences;
  }

  lemma {:induction false} ConcatGrows(parts: seq<seq<Byte>>, n: nat)
    requires n <= |parts|
    ensures |Concat(parts[..n])| <= |Concat(parts)|
  {
    ConcatJoin(parts[..n], parts[n..]);
    assert parts[..n] + parts[n..] == parts;
  }

  lemma {:induction false} PiecesJoin(env: Env, id: U32, at: nat, order: seq<nat>, pieces: seq<Piece>, n: nat,
                                      fuel: nat)
    requires LaidOut(env, id, at, order, pieces, fuel) && n <= |pieces| && |Concat(Cuts(pieces))| <= U64_MAX
    ensures FlattenExtents(env, env.props.locations[at], n, fuel) == Some(Concat(Cuts(pieces)[..n]))
  {
    hide ExtentBytes;
    hide AreReferences;
    hide WrittenSource;
    var parts := Cuts(pieces);
    if n > 0 {
      PiecesJoin(env, id, at, order, pieces, n - 1, fuel);
      PieceIsExtent(env, id, at, order, pieces, n - 1, fuel);
      ConcatGrows(parts, n);
      assert parts[..n][..n - 1] == parts[..n - 1];
    }
  }

  /** An item that was laid out has its pieces, one after another. */
  lemma LaidOutItemFlattens(env: Env, id: U32, at: nat, order: seq<nat>, pieces: seq<Piece>, fuel: nat)
    requires LaidOut(env, id, at, order, pieces, fuel) && |Concat(Cuts(pieces))| <= U64_MAX
    ensures Flatten(env, id, fuel) == Some(Concat(Cuts(pieces)))
  {
    FirstLocation(env.props.locations, id, at);
    PiecesJoin(env, id, at, order, pieces, |pieces|, fuel);
    assert Cuts(pieces)[..|pieces|] == Cuts(pieces);
    hide FlattenExtents;
  }

  /** The first location of the item cannot be used: the data is elsewhere, or not all extents are known. */
  ghost predicate Unusable(env: Env, id: U32, at: nat) {
    && at < |env.props.locations| && (forall j :: 0 <= j < at ==> env.props.locations[j].itemId != id)
    && var loc := env.props.locations[at];
       && loc.itemId == id
       && (!Here(env, loc, id) || loc.extentTruncated || loc.lengthOverflow || loc.extentCount != |loc.extents|
           || loc.extents == [] || loc.constructionMethod > 2)
  }

  /** Such an item has no bytes, whatever other locations it has; nor has one without any location. */
  lemma UnusableItemHasNoBytes(env: Env, id: U32, at: nat, fuel: nat)
    requires Unusable(env, id, at) || forall loc :: loc in env.props.locations ==> loc.itemId != id
    ensures Flatten(env, id, fuel) == None
  {
    if Unusable(env, id, at) {
      FirstLocation(env.props.locations, id, at);
    } else {
      NoLocation(env.props.locations, id);
    }
    hide FlattenExtents;
  }

  lemma {:induction false} NoLocation(locations: seq<Location>, id: U32)
    requires forall loc :: loc in locations ==> loc.itemId != id
    ensures LookupLocation(locations, id) == None
  {
    if locations != [] {
      NoLocation(locations[1..], id);
    }
  }
}
