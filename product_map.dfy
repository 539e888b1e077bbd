/**
  The record loop of `_load_product_map`: from the catalog's `accounts`
  list, the map from product id to display name. Reading and parsing the
  catalog file is not part of this model; the loop starts from the parsed
  records.
 */
module ProductMap {
  import opened Wrappers
  import opened Text

  /** One record of the `accounts` list, seen through `item.get("id")` and
      `item.get("name")`: a missing field is `None`. */
  datatype CatalogItem = CatalogItem(id: Option<string>, name: Option<string>)

  /** `if pid and name`: the record has a non-empty id and a non-empty name. */
  predicate Keeps(item: CatalogItem) {
    Truthy(item.id) && Truthy(item.name)
  }

  /** The map the loop holds after the records of `items`. */
  function CatalogMap(items: seq<CatalogItem>): (m: map<string, string>)
    ensures forall k :: k in m ==> k != "" && m[k] != ""
    ensures forall i :: 0 <= i < |items| && Keeps(items[i]) ==> items[i].id.value in m
    ensures forall k :: k in m ==> exists i :: 0 <= i < |items| && Keeps(items[i]) && items[i].id.value == k
    decreases |items|
  {
    if items == [] then map[]
    else
      assert forall i :: 0 <= i < |items| - 1 ==> items[..|items| - 1][i] == items[i];
      Record(CatalogMap(items[..|items| - 1]), items[|items| - 1])
  }

  /** One turn of the loop: a kept record sets its id to its name. */
  function Record(m: map<string, string>, item: CatalogItem): map<string, string> {
    if Keeps(item) then m[item.id.value := item.name.value] else m
  }

  /** The record loop: `product_map[pid] = name` for every kept record. */
  method LoadProductMap(accounts: seq<CatalogItem>) returns (productMap: map<string, string>)
    ensures productMap == CatalogMap(accounts)
  {
    productMap := map[];
    for i := 0 to |accounts|
      invariant productMap == CatalogMap(accounts[..i])
    {
      var item := accounts[i];
      var pid := item.id;
      var name := item.name;
      assert accounts[..i + 1][..i] == accounts[..i];
      if Truthy(pid) && Truthy(name) {
        productMap := productMap[pid.value := name.value];
      }
      assert productMap == Record(CatalogMap(accounts[..i]), item);
    }
    assert accounts[..|accounts|] == accounts;
  }

  /** A later record with the same id overwrites an earlier one: the name
      kept for an id is that of the last kept record with that id. */
  lemma {:induction false} CatalogMapLastWins(items: seq<CatalogItem>, i: nat)
    requires i < |items| && Keeps(items[i])
    requires forall j :: i < j < |items| && Keeps(items[j]) ==> items[j].id != items[i].id
    ensures items[i].id.value in CatalogMap(items)
    ensures CatalogMap(items)[items[i].id.value] == items[i].name.value
    decreases |items|
  {
    var n := |items| - 1;
    var prefix := items[..n];
    assert CatalogMap(items) == Record(CatalogMap(prefix), items[n]);
    if i < n {
      assert prefix[i] == items[i];
      forall j | i < j < |prefix| && Keeps(prefix[j]) ensures prefix[j].id != prefix[i].id {
        assert prefix[j] == items[j];
      }
      CatalogMapLastWins(prefix, i);
    }
  }

}
