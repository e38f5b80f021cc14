/** Properties of the cart workflow that relate several calls, or a call and
    the invariant of the store. */
module CartProperties {
  import opened CartTables
  import opened CartWorkflow

  /** A cart id the sequence has not handed out yet has no rows. */
  lemma FreshCartHoldsNothing(st: Store, itemId: Id)
    requires WellFormed(st)
    ensures Rows(st.cartItems, st.nextCartId) == map[]
    ensures !Holds(st.cartItems, st.nextCartId, itemId)
  {
  }

  /** `addItem` keeps the store's invariant: one cart per customer, no two rows
      for the same item in a cart, fresh ids ahead. It keeps every row's
      quantity positive when the quantity added is positive. */
  lemma AddItemKeepsValid(st: Store, itemId: Id, quantity: int, customer: Id)
    requires Valid(st)
    ensures Valid(AddItem(st, itemId, quantity, customer).store)
    ensures NoEmptyRows(st.cartItems) && quantity > 0 ==> NoEmptyRows(AddItem(st, itemId, quantity, customer).store.cartItems)
  {
  }

  /** A successful `addItem` adds one cart exactly when the customer had none,
      and always exactly one row, leaving every existing row as it was. */
  lemma AddItemCounts(st: Store, itemId: Id, quantity: int, customer: Id)
    requires WellFormed(st)
    requires AddItem(st, itemId, quantity, customer).response.Ok?
    ensures var s := AddItem(st, itemId, quantity, customer);
            && |s.store.carts| == |st.carts| + (if CartOf(st.carts, customer).None? then 1 else 0)
            && |s.store.cartItems| == |st.cartItems| + 1
            && (forall k :: k in st.cartItems ==> k in s.store.cartItems && s.store.cartItems[k] == st.cartItems[k])
  {
  }

  /** `removeItem` keeps the store's invariant, and never leaves a row with a
      quantity of zero or less where there was none. */
  lemma RemoveItemKeepsValid(st: Store, itemId: Id, quantity: int, customer: Id)
    requires Valid(st)
    ensures Valid(RemoveItem(st, itemId, quantity, customer).store)
    ensures NoEmptyRows(st.cartItems) ==> NoEmptyRows(RemoveItem(st, itemId, quantity, customer).store.cartItems)
  {
  }

  /** `deleteCart` keeps the store's invariant. */
  lemma DeleteCartKeepsValid(st: Store, id: Id, customer: Id)
    requires Valid(st)
    ensures Valid(DeleteCart(st, id, customer).store)
  {
  }

  /** Adding the same item for the same customer a second time fails and
      writes nothing: no duplicate row is ever created. */
  lemma AddItemTwiceRejected(st: Store, itemId: Id, first: int, second: int, customer: Id)
    requires Valid(st)
    requires AddItem(st, itemId, first, customer).response.Ok?
    ensures var mid := AddItem(st, itemId, first, customer).store;
            var s := AddItem(mid, itemId, second, customer);
            && s.store == mid
            && s.response == (if second <= st.items[itemId].stock then Err(BadRequest, "Item already in cart")
                              else Err(BadRequest, "Item not available"))
  {
    var s1 := AddItem(st, itemId, first, customer);
    var mid := s1.store;
    var cartId := s1.response.cart.id;
    AddItemKeepsValid(st, itemId, first, customer);
    assert mid.cartItems[st.nextCartItemId] == CartItem(cartId, itemId, first);
    assert CartOf(mid.carts, customer) == Some(cartId);
    assert Holds(mid.cartItems, cartId, itemId);
  }

  /** A customer without a cart adds two of an item in stock: a cart is
      created holding one row of two; removing two of that item then deletes
      the row and leaves the cart empty. */
  lemma AddThenRemoveEmptiesCart(st: Store, itemId: Id, customer: Id)
    requires Valid(st)
    requires Truthy(itemId) && itemId in st.items
    requires st.items[itemId] == Item(5, AVAILABLE)
    requires CartOf(st.carts, customer).None?
    ensures var s1 := AddItem(st, itemId, 2, customer);
            && s1.response.Ok?
            && s1.response.cart.id == st.nextCartId
            && s1.response.cart.cartItems == Some(map[st.nextCartItemId := CartItem(st.nextCartId, itemId, 2)])
            && var s2 := RemoveItem(s1.store, itemId, 2, customer);
               && s2.response.Ok?
               && s2.response.cart.id == st.nextCartId
               && s2.response.cart.cartItems == Some(map[])
               && s2.store.cartItems == st.cartItems
  {
    var s1 := AddItem(st, itemId, 2, customer);
    var cartId := st.nextCartId;
    var rowId := st.nextCartItemId;
    FreshCartHoldsNothing(st, itemId);
    assert rowId !in st.cartItems;
    assert Rows(s1.store.cartItems, cartId) == map[rowId := CartItem(cartId, itemId, 2)];
    assert CartOf(s1.store.carts, customer) == Some(cartId);
    assert Selected(s1.store.cartItems, cartId) == Some(rowId);
    var s2 := RemoveItem(s1.store, itemId, 2, customer);
    assert s2.store.cartItems == st.cartItems;
    assert Rows(s2.store.cartItems, cartId) == map[];
  }

  /** As written, `removeItem` takes the quantity off a row of the cart
      whatever item that row refers to: in a cart whose only row is for item
      1, asking to remove item 2 (a known item) deletes the row of item 1.
      With a single row, no choice of row order changes this. */
  lemma RemoveItemIgnoresRequestedItem()
    ensures var st := Store(
              map[1 := Item(5, AVAILABLE), 2 := Item(5, AVAILABLE)],
              map[1 := Cart(7)],
              map[1 := CartItem(1, 1, 1)],
              2, 2);
            var s := RemoveItem(st, 2, 1, 7);
            && s.response.Ok?
            && s.store.cartItems == map[]
  {
    var st := Store(
      map[1 := Item(5, AVAILABLE), 2 := Item(5, AVAILABLE)],
      map[1 := Cart(7)],
      map[1 := CartItem(1, 1, 1)],
      2, 2);
    assert st.carts[1].customerId == 7;
    assert CartOf(st.carts, 7) == Some(1);
    assert st.cartItems[1].cartId == 1 && Truthy(st.cartItems[1].itemId);
    assert Selected(st.cartItems, 1) == Some(1);
    assert st.cartItems - {1} == map[];
  }
}
