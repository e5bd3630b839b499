/** The price-level book of lib/order_book.c: on each side a hash table, a tree and a sorted list share
    one set of level objects.  The six fields of the book are grouped by side. */
module LevelBook {
  import opened Wrappers

  /** What an update names: a sequence number, a price, a size and a side. */
  datatype Order = Order(seqNum: nat, price: nat, size: nat, buy: bool)

  datatype Entry = Entry(seqNum: nat, price: nat, size: nat)

  /** Hash and tree index a level by the low 32 bits of its price; the list compares whole prices. */
  function KeyOf(price: nat): nat { price % 0x1_0000_0000 }

  /** One side of the book as a map from the key of a price to the level found there. */
  type Levels = map<nat, Entry>

  /** ob_level_modify on the map: None is its failure. */
  function Modified(m: Levels, o: Order): Option<Levels> {
    var k := KeyOf(o.price);
    if k !in m then Some(m[k := Entry(o.seqNum, o.price, o.size)])
    else if m[k].seqNum >= o.seqNum then None
    else Some(m[k := Entry(o.seqNum, m[k].price, o.size)])
  }

  /** The levels that are not tombstones. */
  function Live(m: Levels): Levels {
    map k | k in m && m[k].size != 0 :: m[k]
  }

  class ObLevel {
    var seqNum: nat
    const price: nat
    var size: nat

    constructor (seqNum: nat, price: nat, size: nat)
      ensures this.seqNum == seqNum && this.price == price && this.size == size
    {
      this.seqNum, this.price, this.size := seqNum, price, size;
    }

    function Value(): Entry
      reads this
    {
      Entry(seqNum, price, size)
    }
  }

  // ----- three indexes over one set of levels ---------------------------------------------

  ghost predicate AscendingPrices(list: seq<ObLevel>) {
    forall i, j | 0 <= i < j < |list| :: list[i].price < list[j].price
  }

  ghost predicate Listed(list: seq<ObLevel>, level: ObLevel) {
    level in list
  }

  ghost predicate Indexed(hash: map<nat, ObLevel>, level: ObLevel) {
    KeyOf(level.price) in hash && hash[KeyOf(level.price)] == level
  }

  /** Hash, tree and list hold the same levels, each under the key of its price. */
  ghost predicate Agree(hash: map<nat, ObLevel>, tree: map<nat, ObLevel>, list: seq<ObLevel>) {
    && hash == tree
    && (forall k {:trigger Indexed(hash, hash[k])} | k in hash :: KeyOf(hash[k].price) == k)
    && (forall k {:trigger Listed(list, hash[k])} | k in hash :: Listed(list, hash[k]))
    && (forall i {:trigger Indexed(hash, list[i])} | 0 <= i < |list| :: Indexed(hash, list[i]))
    && AscendingPrices(list)
  }

  /** Where g_list_insert_sorted puts a price: before the first level whose price is not smaller. */
  function Position(list: seq<ObLevel>, price: nat): (n: nat)
    ensures n <= |list|
    ensures forall i | 0 <= i < n :: list[i].price < price
    ensures n < |list| ==> price <= list[n].price
  {
    if list == [] || price <= list[0].price then 0 else 1 + Position(list[1..], price)
  }

  /** g_list_insert_sorted */
  function InsertSorted(list: seq<ObLevel>, level: ObLevel): seq<ObLevel> {
    var n := Position(list, level.price);
    list[..n] + [level] + list[n..]
  }

  /** g_list_remove */
  function Remove(list: seq<ObLevel>, level: ObLevel): seq<ObLevel> {
    if level !in list then list
    else if list[0] == level then list[1..]
    else [list[0]] + Remove(list[1..], level)
  }

  lemma {:induction false} RemoveCutsAt(list: seq<ObLevel>, i: nat)
    requires AscendingPrices(list) && i < |list|
    ensures Remove(list, list[i]) == list[..i] + list[i + 1..]
  {
    if i > 0 {
      assert list[0].price < list[i].price;
      RemoveCutsAt(list[1..], i - 1);
      assert list[1..][..i - 1] == list[1..i] && list[1..][i..] == list[i + 1..];
      assert [list[0]] + list[1..i] == list[..i];
    }
  }

  lemma InsertKeepsOrder(list: seq<ObLevel>, level: ObLevel)
    requires AscendingPrices(list)
    requires forall i | 0 <= i < |list| :: list[i].price != level.price
    ensures AscendingPrices(InsertSorted(list, level))
  {
    var n, r := Position(list, level.price), InsertSorted(list, level);
    forall i, j | 0 <= i < j < |r| ensures r[i].price < r[j].price {
      assert i != n ==> r[i] == list[if i < n then i else i - 1];
      assert j != n ==> r[j] == list[if j < n then j else j - 1];
    }
  }

  /** A new level under a free key keeps the three indexes together. */
  lemma AddKeepsAgreement(hash: map<nat, ObLevel>, tree: map<nat, ObLevel>, list: seq<ObLevel>, level: ObLevel,
                          hash': map<nat, ObLevel>, tree': map<nat, ObLevel>, r: seq<ObLevel>)
    requires Agree(hash, tree, list) && KeyOf(level.price) !in hash
    requires hash' == hash[KeyOf(level.price) := level] && tree' == tree[KeyOf(level.price) := level]
    requires r == InsertSorted(list, level)
    ensures Agree(hash', tree', r)
  {
    var n, k := Position(list, level.price), KeyOf(level.price);
    forall i | 0 <= i < |list| ensures list[i].price != level.price {
      assert Indexed(hash, list[i]);
    }
    InsertKeepsOrder(list, level);
    forall i | 0 <= i < |r| ensures Indexed(hash', r[i]) {
      if i != n {
        assert r[i] == list[if i < n then i else i - 1];
        assert Indexed(hash, list[if i < n then i else i - 1]);
      }
    }
    forall j | j in hash' ensures Listed(r, hash'[j]) && KeyOf(hash'[j].price) == j {
      if j == k {
        assert r[n] == level;
      } else {
        assert Listed(list, hash[j]) && Indexed(hash, hash[j]);
        var i :| 0 <= i < |list| && list[i] == hash[j];
        assert r[if i < n then i else i + 1] == list[i];
      }
    }
  }

  ghost function Cut(list: seq<ObLevel>, n: nat): (r: seq<ObLevel>)
    requires n < |list|
    ensures |r| == |list| - 1
    ensures forall i | 0 <= i < |r| :: r[i] == list[if i < n then i else i + 1]
  {
    list[..n] + list[n + 1..]
  }

  lemma CutKeepsOrder(list: seq<ObLevel>, n: nat)
    requires AscendingPrices(list) && n < |list|
    ensures AscendingPrices(Cut(list, n))
    ensures forall i | 0 <= i < |list| && i != n :: list[i] != list[n]
  {
    forall i | 0 <= i < |list| && i != n ensures list[i] != list[n] {
      assert if i < n then list[i].price < list[n].price else list[n].price < list[i].price;
    }
  }

  lemma CutStaysListed(list: seq<ObLevel>, n: nat, level: ObLevel)
    requires n < |list| && Listed(list, level) && level != list[n]
    ensures Listed(Cut(list, n), level)
  {
    var i :| 0 <= i < |list| && list[i] == level;
    assert Cut(list, n)[if i < n then i else i - 1] == level;
  }

  lemma CutKeepsAgreement(hash: map<nat, ObLevel>, list: seq<ObLevel>, k: nat, n: nat,
                          hash': map<nat, ObLevel>, r: seq<ObLevel>)
    requires Agree(hash, hash, list) && k in hash && n < |list| && list[n] == hash[k]
    requires r == Cut(list, n) && hash' == hash - {k}
    ensures Agree(hash', hash', r)
  {
    CutKeepsOrder(list, n);
    assert Indexed(hash, hash[k]);
    forall j | j in hash' ensures Listed(r, hash'[j]) && KeyOf(hash'[j].price) == j {
      assert Listed(list, hash[j]) && Indexed(hash, hash[j]);
      CutStaysListed(list, n, hash[j]);
    }
    forall i | 0 <= i < |r| ensures Indexed(hash', r[i]) {
      assert Indexed(hash, list[if i < n then i else i + 1]);
    }
  }

  /** Taking a level out of all three keeps them together. */
  lemma DropKeepsAgreement(hash: map<nat, ObLevel>, tree: map<nat, ObLevel>, list: seq<ObLevel>, k: nat,
                           hash': map<nat, ObLevel>, tree': map<nat, ObLevel>, list': seq<ObLevel>)
    requires Agree(hash, tree, list) && k in hash
    requires hash' == hash - {k} && tree' == tree - {k} && list' == Remove(list, hash[k])
    ensures Agree(hash', tree', list')
  {
    assert Listed(list, hash[k]);
    var n :| 0 <= n < |list| && list[n] == hash[k];
    RemoveCutsAt(list, n);
    CutKeepsAgreement(hash, list, k, n, hash', list');
  }

  class Side {
    var hash: map<nat, ObLevel>
    var tree: map<nat, ObLevel>
    var list: seq<ObLevel>
    /** The side and all the levels that are or were its own. */
    ghost var Repr: set<object>

    ghost predicate Valid()
      reads this, Repr
      ensures Valid() ==> this in Repr
    {
      && this in Repr
      && (forall k | k in hash :: hash[k] in Repr)
      && Agree(hash, tree, list)
    }

    ghost function Contents(): (m: Levels)
      reads this, Repr
      requires Valid()
    {
      map k | k in hash :: hash[k].Value()
    }

    constructor ()
      ensures Valid() && fresh(Repr) && Contents() == map[]
    {
      hash, tree, list := map[], map[], [];
      Repr := {this};
    }

    /** ob_level_lookup */
    method Lookup(price: nat) returns (level: ObLevel?)
      requires Valid()
      ensures level == null <==> KeyOf(price) !in Contents()
      ensures level != null ==>
        level in Repr && level == hash[KeyOf(price)] && level.Value() == Contents()[KeyOf(price)]
    {
      if KeyOf(price) in hash {
        level := hash[KeyOf(price)];
      } else {
        level := null;
      }
    }

    /** The insertion of a level that ob_level_modify did not find. */
    method Add(level: ObLevel)
      requires Valid() && level !in Repr && KeyOf(level.price) !in hash
      modifies this
      ensures Valid() && Repr == old(Repr) + {level}
      ensures Contents() == old(Contents())[KeyOf(level.price) := level.Value()]
    {
      var k := KeyOf(level.price);
      Repr := Repr + {level};
      hash := hash[k := level];
      list := InsertSorted(list, level);
      tree := tree[k := level];
      AddKeepsAgreement(old(hash), old(tree), old(list), level, hash, tree, list);
    }

    /** ob_level_modify */
    method Modify(o: Order) returns (ok: bool)
      requires Valid()
      modifies Repr
      ensures Valid() && fresh(Repr - old(Repr))
      ensures ok == Modified(old(Contents()), o).Some?
      ensures Contents() == if ok then Modified(old(Contents()), o).value else old(Contents())
    {
      var level := Lookup(o.price);
      if level == null {
        level := new ObLevel(o.seqNum, o.price, o.size);
        Add(level);
      } else {
        if level.seqNum >= o.seqNum {
          return false;
        }
        assert Indexed(hash, level);
        level.seqNum := o.seqNum;
        level.size := o.size;
      }
      return true;
    }

    /** ob_level_delete */
    method Delete(price: nat) returns (ok: bool)
      requires Valid()
      modifies this
      ensures Valid() && Repr == old(Repr)
      ensures ok && hash == old(hash) - {KeyOf(price)} && Contents() == old(Contents()) - {KeyOf(price)}
    {
      var k := KeyOf(price);
      var level := Lookup(price);
      if level != null {
        if k !in hash {
          return false;
        }
        hash := hash - {k};
        if k !in tree {
          return false;
        }
        tree := tree - {k};
        list := Remove(list, level);
        DropKeepsAgreement(old(hash), old(tree), old(list), k, hash, tree, list);
      }
      return true;
    }

    /** The sweep at the end of fast_books_join: walk the list and delete every level of size zero. */
    method Sweep() returns (ok: bool)
      requires Valid()
      modifies this
      ensures Valid() && Repr == old(Repr)
      ensures ok && Contents() == Live(old(Contents()))
    {
      var todo := list;
      ghost var all := list;
      ghost var done := 0;
      while todo != []
        invariant Valid() && Repr == old(Repr)
        invariant done <= |all| && todo == all[done..] && all == old(list)
        invariant hash.Keys <= old(hash).Keys && forall k | k in hash :: hash[k] == old(hash)[k]
        invariant forall k | k in old(hash) && k !in hash :: old(hash)[k].size == 0
        invariant forall i | 0 <= i < done && all[i].size == 0 :: KeyOf(all[i].price) !in hash
        decreases |todo|
      {
        var level := todo[0];
        todo := todo[1..];
        assert Indexed(old(hash), all[done]);
        if level.size == 0 {
          ok := Delete(level.price);
          if !ok {
            return;
          }
        }
        done := done + 1;
      }
      forall k | k in hash ensures hash[k].size != 0 {
        assert Listed(all, old(hash)[k]) && Indexed(old(hash), old(hash)[k]);
      }
      return true;
    }
  }
}
