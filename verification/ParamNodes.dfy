/** The nodes of the parameter cache and the chains they form on the heap (IBM_DB_Driver/ibm_db.c). */
module ParamNodes {
  import opened Options
  import opened Sequences
  import opened Parameters
  import opened ExecuteProtocol

  class ParamNode {
    var num: int
    var dataType: SqlType
    var paramSize: nat
    var scale: int
    var nullable: int
    var direction: Direction
    var varName: Option<string>
    var size: int
    var svalue: Option<string>
    var ivalue: int
    var fvalue: real
    var next: ParamNode?

    constructor (e: Entry)
      ensures Content() == e && svalue == None && next == null
    {
      num, varName, direction, size := e.num, e.varName, e.direction, e.size;
      dataType, paramSize, scale, nullable := e.desc.dataType, e.desc.precision, e.desc.scale, e.desc.nullable;
      svalue, ivalue, fvalue, next := None, 0, 0.0, null;
    }

    ghost function Content(): Entry
      reads this
    {
      Entry(num, Description(dataType, paramSize, scale, nullable), direction, varName, size)
    }

    /** Replaces the cached facts of the same marker. */
    method Replace(e: Entry)
      modifies this
      ensures Content() == e && svalue == None && next == old(next)
    {
      dataType, paramSize, nullable, scale := e.desc.dataType, e.desc.precision, e.desc.nullable, e.desc.scale;
      num, direction, size, varName, svalue := e.num, e.direction, e.size, e.varName, None;
    }

    /** The fields whose addresses are bound for a value hold it. */
    ghost predicate Holds(v: Value)
      reads this
    {
      match v
      case Text(data) => svalue == Some(data) && ivalue == |data|
      case Bignum(digits) => svalue == Some(digits) && ivalue == |digits|
      case Fixnum(n) => ivalue == n
      case Flag(b) => ivalue == if b then 1 else 0
      case Float(r) => fvalue == r
      case Nil => ivalue == -1
      case Unsupported => false
    }

    /** What SQLPutData sends when the CLI library hands this node back as a token. */
    function Buffered(): Chunk
      reads this
    {
      Chunk(num, svalue, ivalue)
    }
  }

  ghost function NodeAt(ns: seq<ParamNode>, i: nat): ParamNode? {
    if i < |ns| then ns[i] else null
  }

  /** `ns` is the finite, null-terminated chain of nodes reachable from `h`. */
  ghost predicate IsList(h: ParamNode?, ns: seq<ParamNode>)
    reads ns
  {
    && h == NodeAt(ns, 0)
    && forall i {:trigger ns[i].next} :: 0 <= i < |ns| ==> ns[i].next == NodeAt(ns, i + 1)
  }

  /** A chain that ends in null visits no node twice. */
  lemma {:induction false} ChainVisitsOnce(h: ParamNode?, ns: seq<ParamNode>, i: nat, j: nat)
    requires IsList(h, ns) && i < j < |ns|
    ensures ns[i] != ns[j]
    decreases |ns| - j
  {
    if ns[i] == ns[j] {
      assert ns[i].next == ns[i + 1] && ns[j].next == NodeAt(ns, j + 1);
      ChainVisitsOnce(h, ns, i + 1, j + 1);
    }
  }

  /** Position `j` is the only one at which the list visits its node. */
  lemma OnlyAt(h: ParamNode?, ns: seq<ParamNode>, j: nat)
    requires IsList(h, ns) && j < |ns|
    ensures forall k :: 0 <= k < |ns| && k != j ==> ns[k] != ns[j]
  {
    forall k | 0 <= k < |ns| && k != j ensures ns[k] != ns[j] {
      if k < j {
        ChainVisitsOnce(h, ns, k, j);
      } else {
        ChainVisitsOnce(h, ns, j, k);
      }
    }
  }

  lemma ListIsDistinct(h: ParamNode?, ns: seq<ParamNode>)
    requires IsList(h, ns)
    ensures Distinct(ns)
  {
    forall i, j | 0 <= i < j < |ns| ensures ns[i] != ns[j] {
      ChainVisitsOnce(h, ns, i, j);
    }
  }

  /** Two nodes pointing at each other are no list, of any length. */
  lemma TwoCycleIsNoList(h: ParamNode, ns: seq<ParamNode>)
    requires h.next != null && h.next.next == h
    ensures !IsList(h, ns)
  {
    if IsList(h, ns) {
      ListIsDistinct(h, ns);
    }
  }

  /** The nodes hold exactly these entries, position by position. */
  ghost predicate Represents(ns: seq<ParamNode>, es: seq<Entry>)
    reads ns
  {
    |ns| == |es| && forall i :: 0 <= i < |ns| ==> ns[i].Content() == es[i]
  }

  lemma RepresentsIn(ns: seq<ParamNode>, es: seq<Entry>, i: nat, n: ParamNode, es': seq<Entry>)
    requires Represents(ns, es) && i <= |ns| && Spliced(es, i, n.Content(), es')
    ensures Represents(ns[..i] + [n] + ns[i..], es')
  {
  }

  /** Linking `n` in at position `i` makes `r` the list. */
  lemma LinkedIn(h: ParamNode?, ns: seq<ParamNode>, i: nat, n: ParamNode, r: seq<ParamNode>)
    requires i <= |ns| && r == ns[..i] + [n] + ns[i..]
    requires h == if i == 0 then n else ns[0]
    requires n.next == NodeAt(ns, i) && (i > 0 ==> ns[i - 1].next == n)
    requires forall k {:trigger ns[k].next} :: 0 <= k < |ns| && k != i - 1 ==> ns[k].next == NodeAt(ns, k + 1)
    ensures IsList(h, r)
  {
    forall k | 0 <= k < |r| ensures r[k].next == NodeAt(r, k + 1) {
      if k > i {
        assert r[k] == ns[k - 1];
      }
    }
  }

  // ---------- accounting ----------

  ghost function NodeSet(ns: seq<ParamNode>): set<ParamNode> {
    set n | n in ns
  }

  /** Of the nodes born so far, each is either in the list or released, and none was released twice. */
  ghost predicate Accounted(ns: seq<ParamNode>, born: set<ParamNode>, released: seq<ParamNode>) {
    && Distinct(released)
    && (forall n :: n in ns ==> n in born && n !in released)
    && (forall n :: n in released ==> n in born)
    && forall n :: n in born ==> n in ns || n in released
  }

  lemma AccountedIn(ns: seq<ParamNode>, born: set<ParamNode>, released: seq<ParamNode>, i: nat, n: ParamNode)
    requires Accounted(ns, born, released) && i <= |ns| && n !in born
    ensures Accounted(ns[..i] + [n] + ns[i..], born + {n}, released)
    ensures born + {n} == born + NodeSet(ns[..i] + [n] + ns[i..])
  {
    var r := ns[..i] + [n] + ns[i..];
    assert ns == ns[..i] + ns[i..];
    assert r[i] == n;
    forall m ensures m in r <==> m in ns || m == n {
      if m in ns {
        assert m in ns[..i] || m in ns[i..];
      }
    }
  }

  /** Releasing the whole list releases no node a second time. */
  lemma AllReleased(ns: seq<ParamNode>, born: set<ParamNode>, released: seq<ParamNode>)
    requires Accounted(ns, born, released) && Distinct(ns)
    ensures Accounted([], born, released + ns)
  {
    DistinctJoin(released, ns);
  }

  /** What was born since the list was empty is in the list now, as long as nothing is released. */
  lemma BornSince(ns: seq<ParamNode>, born: set<ParamNode>, released: seq<ParamNode>, before: set<ParamNode>)
    requires Accounted(ns, born, released)
    ensures Accounted([], before, released) ==> born == before + NodeSet(ns)
  {
  }
}
