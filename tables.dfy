/** The three tables the cart workflow reads and writes (items, carts and
    cart items), and the lookups its repositories perform on them. */
module CartTables {

  /** Primary and foreign keys. The null id, the only falsy one, is 0. */
  type Id = nat

  datatype Option<+T> = None | Some(value: T)

  /** The status an item must carry to be put in a cart. */
  const AVAILABLE: string := "AVAILABLE"

  /** A catalog item: its stock count and its status. */
  datatype Item = Item(stock: int, status: string)

  /** A cart belongs to one customer. */
  datatype Cart = Cart(customerId: Id)

  /** An association of a cart, an item and a quantity. */
  datatype CartItem = CartItem(cartId: Id, itemId: Id, quantity: int)

  /** The whole store: the three tables, keyed by primary key, and the next
      value of the two id sequences that number new carts and new cart items. */
  datatype Store = Store(
    items: map<Id, Item>,
    carts: map<Id, Cart>,
    cartItems: map<Id, CartItem>,
    nextCartId: Id,
    nextCartItemId: Id)

  /** Truthiness of an id in a JavaScript condition. */
  predicate Truthy(id: Id) {
    id != 0
  }

  ghost predicate IsLeast(m: Id, s: set<Id>) {
    m in s && forall k :: k in s ==> m <= k
  }

  /** Every non-empty set of keys has a least element. */
  lemma {:induction false} LeastExists(s: set<Id>)
    requires s != {}
    ensures exists m :: IsLeast(m, s)
  {
    var x :| x in s;
    if s == {x} {
      assert IsLeast(x, s);
    } else {
      LeastExists(s - {x});
      var m :| IsLeast(m, s - {x});
      var least := if x < m then x else m;
      forall k | k in s
        ensures least <= k
      {
        if k != x {
          assert k in s - {x};
        }
      }
      assert IsLeast(least, s);
    }
  }

  /** The first of a set of rows. The repositories' lookups give no order, so
      the model fixes one: ascending primary key. */
  function Least(s: set<Id>): (m: Id)
    requires s != {}
    ensures m in s
    ensures forall k :: k in s ==> m <= k
  {
    LeastExists(s);
    var m :| m in s && forall k :: k in s ==> m <= k; m
  }

  /** `findOne({ where: { customer_id } })` on the cart table: one of the
      customer's carts (the least key, in the model's order), if any. */
  function CartOf(carts: map<Id, Cart>, customer: Id): (r: Option<Id>)
    ensures r.None? <==> forall k :: k in carts ==> carts[k].customerId != customer
    ensures r.Some? ==> r.value in carts && carts[r.value].customerId == customer
    ensures r.Some? ==> forall k :: k in carts && carts[k].customerId == customer ==> r.value <= k
  {
    var owned := set k | k in carts && carts[k].customerId == customer;
    assert forall k :: k in carts && carts[k].customerId == customer ==> k in owned;
    if owned == {} then None else Some(Least(owned))
  }

  /** The `cart_items` relation of a cart: the rows that point at it. */
  function Rows(cartItems: map<Id, CartItem>, cartId: Id): (rows: map<Id, CartItem>) {
    map k | k in cartItems && cartItems[k].cartId == cartId :: cartItems[k]
  }

  /** Some row of the cart refers to the item. */
  predicate Holds(cartItems: map<Id, CartItem>, cartId: Id, itemId: Id) {
    exists k :: k in cartItems && cartItems[k].cartId == cartId && cartItems[k].itemId == itemId
  }

  /** `cart.cart_items.find(item => item.item_id)`: the first row of the cart
      whose item id is truthy (the least key, in the model's order), whichever
      item that row refers to. */
  function Selected(cartItems: map<Id, CartItem>, cartId: Id): (r: Option<Id>)
    ensures r.None? <==> forall k :: k in cartItems && cartItems[k].cartId == cartId ==> !Truthy(cartItems[k].itemId)
    ensures r.Some? ==> r.value in cartItems && cartItems[r.value].cartId == cartId && Truthy(cartItems[r.value].itemId)
    ensures r.Some? ==> forall k :: k in cartItems && cartItems[k].cartId == cartId && Truthy(cartItems[k].itemId) ==> r.value <= k
  {
    var candidates := set k | k in cartItems && cartItems[k].cartId == cartId && Truthy(cartItems[k].itemId);
    assert forall k :: k in cartItems && cartItems[k].cartId == cartId && Truthy(cartItems[k].itemId) ==> k in candidates;
    if candidates == {} then None else Some(Least(candidates))
  }

  /** The id sequences are ahead of every id in use: a new cart id is a key
      no cart has and no cart item points at, a new cart item id a key no
      cart item has. */
  ghost predicate WellFormed(st: Store) {
    && (forall k :: k in st.carts ==> k < st.nextCartId)
    && (forall k :: k in st.cartItems ==> k < st.nextCartItemId && st.cartItems[k].cartId < st.nextCartId)
  }

  /** One cart per customer. */
  ghost predicate OneCartPerCustomer(carts: map<Id, Cart>) {
    forall a, b :: a in carts && b in carts && carts[a].customerId == carts[b].customerId ==> a == b
  }

  /** At most one row per (cart, item) pair. */
  ghost predicate NoDuplicateRows(cartItems: map<Id, CartItem>) {
    forall a, b ::
      a in cartItems && b in cartItems &&
      cartItems[a].cartId == cartItems[b].cartId && cartItems[a].itemId == cartItems[b].itemId
      ==> a == b
  }

  /** No row with a quantity of zero or less. */
  ghost predicate NoEmptyRows(cartItems: map<Id, CartItem>) {
    forall k :: k in cartItems ==> cartItems[k].quantity > 0
  }

  /** The invariant the cart workflow keeps. */
  ghost predicate Valid(st: Store) {
    WellFormed(st) && OneCartPerCustomer(st.carts) && NoDuplicateRows(st.cartItems)
  }
}
