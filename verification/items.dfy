/** The item catalogue (src/lib/items.js): the table of tracked items, the
    named groups of item keys shown together on a page, and the lookup that
    pairs each item of a group with its current price. */
module Items {
  import opened Js

  /** The icon component an item is drawn with. */
  datatype Icon = Egg | Milk | ShoppingBasket | Fuel | Beef | Drumstick | Coffee | Banana | Citrus | Zap

  datatype Item = Item(name: string, dataKey: string, icon: Icon, unit: string, bgColor: string, lineColor: string)

  /** `allItems`, keyed by item key (lines 15-103). */
  const AllItems: map<string, Item> := map[
    "eggs" := Item("Eggs", "eggs", Egg, "dozen", "bg-yellow-50", "#8884d8"),
    "milk" := Item("Milk", "milk", Milk, "gallon", "bg-blue-50", "#82ca9d"),
    "bread" := Item("Bread", "bread", ShoppingBasket, "loaf", "bg-amber-50", "#ffc658"),
    "gas" := Item("Gas", "gas", Fuel, "gallon", "bg-red-50", "#ff7300"),
    "bacon" := Item("Bacon", "bacon", Beef, "pound", "bg-rose-50", "#e11d48"),
    "chicken" := Item("Chicken", "chicken", Drumstick, "pound", "bg-orange-50", "#ea580c"),
    "bananas" := Item("Bananas", "bananas", Banana, "pound", "bg-yellow-50", "#eab308"),
    "oranges" := Item("Oranges", "oranges", Citrus, "pound", "bg-orange-50", "#f97316"),
    "coffee" := Item("Coffee", "coffee", Coffee, "pound", "bg-brown-50", "#92400e"),
    "electricity" := Item("Electricity", "electricity", Zap, "KWH", "bg-yellow-50", "#facc15")
  ]

  /** `itemGroups` (lines 106-111). */
  const ItemGroups: map<string, seq<string>> := map[
    "breakfast" := ["eggs", "milk", "bread", "coffee"],
    "meats" := ["bacon", "chicken"],
    "produce" := ["bananas", "oranges"],
    "utilities" := ["electricity", "gas"]
  ]

  /** Names every object inherits from `Object.prototype`. Looking one of
      them up in `itemGroups` yields a function or an object without `map`,
      which is truthy, so `.map` raises a TypeError. */
  const InheritedNames: set<string> := {
    "constructor", "hasOwnProperty", "isPrototypeOf", "propertyIsEnumerable",
    "toLocaleString", "toString", "valueOf", "__proto__",
    "__defineGetter__", "__defineSetter__", "__lookupGetter__", "__lookupSetter__"
  }

  /** The catalogue is consistent: each item's `dataKey` is its own key, and
      every key a group lists names an item, so the lookup of line 118 never
      reads a field of undefined. */
  lemma CatalogueIsConsistent()
    ensures forall k :: k in AllItems ==> AllItems[k].dataKey == k
    ensures forall g, i :: g in ItemGroups && 0 <= i < |ItemGroups[g]| ==> ItemGroups[g][i] in AllItems
    ensures forall g :: g in ItemGroups ==> g !in InheritedNames
  {
  }

  /** An element of the result: the fields of the item, spread, plus `price`. */
  datatype PricedItem<V> = PricedItem(item: Item, price: Option<V>)

  /** The `priceData` argument: `current` maps a data key to a price; `None`
      stands for a missing or nullish `current`. */
  datatype PriceData<V> = PriceData(current: Option<map<string, V>>)

  /** `priceData?.current?.[key]`, with `None` for undefined. */
  function PriceOf<V>(priceData: Option<PriceData<V>>, key: string): (p: Option<V>)
    ensures p.Some? <==> priceData.Some? && priceData.value.current.Some? && key in priceData.value.current.value
    ensures p.Some? ==> p.value == priceData.value.current.value[key]
  {
    if priceData.Some? && priceData.value.current.Some? && key in priceData.value.current.value
    then Some(priceData.value.current.value[key])
    else None
  }

  /** `getItemsWithPrices(groupName, priceData)` (lines 114-120). `None`
      stands for the TypeError an inherited name raises; a name that is not
      a group at all gives the empty list. Otherwise the result follows the
      group's list, in order, and pairs each item with its price. */
  function GetItemsWithPrices<V>(groupName: string, priceData: Option<PriceData<V>>): (r: Option<seq<PricedItem<V>>>)
    ensures r.None? <==> groupName in InheritedNames
    ensures r.Some? && groupName !in ItemGroups ==> r.value == []
    ensures r.Some? && groupName in ItemGroups ==>
              |r.value| == |ItemGroups[groupName]|
              && forall i :: 0 <= i < |r.value| ==>
                   ItemGroups[groupName][i] in AllItems
                   && r.value[i].item == AllItems[ItemGroups[groupName][i]]
                   && r.value[i].price == PriceOf(priceData, ItemGroups[groupName][i])
  {
    CatalogueIsConsistent();
    if groupName in InheritedNames then None
    else if groupName !in ItemGroups then Some([])
    else
      var keys := ItemGroups[groupName];
      Some(seq(|keys|, i requires 0 <= i < |keys| =>
        PricedItem(AllItems[keys[i]], PriceOf(priceData, AllItems[keys[i]].dataKey))))
  }

  /** Without price data every item of a group is priced undefined. */
  lemma NoPriceDataNoPrices<V>(groupName: string)
    requires groupName in ItemGroups
    ensures var r := GetItemsWithPrices<V>(groupName, None);
            r.Some? && forall i :: 0 <= i < |r.value| ==> r.value[i].price.None?
  {
    CatalogueIsConsistent();
  }

  /** Each priced item's price is the current price listed under its own
      item key. */
  lemma PricedByOwnKey<V>(groupName: string, priceData: Option<PriceData<V>>, i: int)
    requires groupName in ItemGroups && 0 <= i < |ItemGroups[groupName]|
    ensures var r := GetItemsWithPrices(groupName, priceData);
            r.Some? && r.value[i].price == PriceOf(priceData, r.value[i].item.dataKey)
  {
    CatalogueIsConsistent();
  }
}
