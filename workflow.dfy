/** The five cart operations of the cart service as steps from one store to
    the next, each with the response the caller receives. */
module CartWorkflow {
  import opened CartTables

  /** The HTTP statuses the operations fail with. */
  datatype HttpStatus = BadRequest | NotFound

  /** The cart a successful call returns. `cartItems` is `None` when the cart
      was read without its `cart_items` relation. */
  datatype CartView = CartView(id: Id, customerId: Id, cartItems: Option<map<Id, CartItem>>)

  /** A success carrying a cart, or a failure carrying a status and a message. */
  datatype Response = Ok(cart: CartView) | Err(status: HttpStatus, message: string)

  /** The store after a call, with the call's response. */
  datatype Step = Step(store: Store, response: Response)

  /** A cart as re-read with its rows. */
  function View(st: Store, cartId: Id): (v: CartView)
    requires cartId in st.carts
  {
    CartView(cartId, st.carts[cartId].customerId, Some(Rows(st.cartItems, cartId)))
  }

  /** What a successful removal does to the cart item table: the selected row
      loses `quantity`; it is deleted when exactly nothing is left and kept
      with the reduced quantity otherwise; no other row changes. */
  ghost predicate Reduced(before: map<Id, CartItem>, after: map<Id, CartItem>, rowId: Id, quantity: int)
    requires rowId in before
  {
    var left := before[rowId].quantity - quantity;
    && (forall k :: k in after ==> k in before)
    && (forall k :: k in before && k != rowId ==> k in after && after[k] == before[k])
    && (rowId in after <==> left != 0)
    && (rowId in after ==> after[rowId] == before[rowId].(quantity := left))
  }

  /** `addItem`: put `quantity` of an item in the customer's cart, creating
      the cart when the customer has none. */
  function AddItem(st: Store, itemId: Id, quantity: int, customer: Id): (s: Step)
    // every failure leaves the store as it was
    ensures s.response.Err? ==> s.store == st
    ensures itemId !in st.items ==> s.response == Err(BadRequest, "Cannot find item")
    ensures itemId in st.items && (st.items[itemId].stock < quantity || st.items[itemId].status != AVAILABLE) ==>
              s.response == Err(BadRequest, "Item not available")
    // the call succeeds exactly when the item is known, available, in stock
    // and not yet in the customer's existing cart
    ensures s.response.Ok? <==>
              && itemId in st.items
              && quantity <= st.items[itemId].stock
              && st.items[itemId].status == AVAILABLE
              && !(CartOf(st.carts, customer).Some? && Holds(st.cartItems, CartOf(st.carts, customer).value, itemId))
    ensures s.response.Err? && itemId in st.items && quantity <= st.items[itemId].stock && st.items[itemId].status == AVAILABLE ==>
              s.response == Err(BadRequest, "Item already in cart")
    // on success: the customer's existing cart is reused, or one new cart is
    // created for them, and exactly one row is inserted into it
    ensures s.response.Ok? ==>
              && s.store.items == st.items
              && s.response.cart.id in s.store.carts
              && s.store.carts[s.response.cart.id] == Cart(customer)
              && (CartOf(st.carts, customer).Some? ==>
                    s.store.carts == st.carts && s.response.cart.id == CartOf(st.carts, customer).value)
              && (CartOf(st.carts, customer).None? ==>
                    s.store.carts == st.carts[st.nextCartId := Cart(customer)] && s.response.cart.id == st.nextCartId)
              && s.store.cartItems == st.cartItems[st.nextCartItemId := CartItem(s.response.cart.id, itemId, quantity)]
              && s.response.cart == View(s.store, s.response.cart.id)
  {
    if itemId !in st.items then
      Step(st, Err(BadRequest, "Cannot find item"))
    else if st.items[itemId].stock < quantity || st.items[itemId].status != AVAILABLE then
      Step(st, Err(BadRequest, "Item not available"))
    else
      var found := CartOf(st.carts, customer);
      // a cart created here has no loaded rows, so it never holds the item
      var withCart := if found.None? then st.(carts := st.carts[st.nextCartId := Cart(customer)], nextCartId := st.nextCartId + 1) else st;
      var cartId := if found.None? then st.nextCartId else found.value;
      if found.Some? && Holds(withCart.cartItems, cartId, itemId) then
        Step(withCart, Err(BadRequest, "Item already in cart"))
      else
        var after := withCart.(
          cartItems := withCart.cartItems[withCart.nextCartItemId := CartItem(cartId, itemId, quantity)],
          nextCartItemId := withCart.nextCartItemId + 1);
        Step(after, Ok(View(after, cartId)))
  }

  /** `removeItem`: take `quantity` off the row that the cart item lookup
      selects in the customer's cart. As written, that lookup ignores
      `itemId` and takes the cart's first row with a truthy item id;
      `itemId` is only checked to name a known item. */
  function RemoveItem(st: Store, itemId: Id, quantity: int, customer: Id): (s: Step)
    // every failure leaves the store as it was
    ensures s.response.Err? ==> s.store == st
    ensures itemId !in st.items ==> s.response == Err(BadRequest, "Cannot find item")
    ensures itemId in st.items && CartOf(st.carts, customer).None? ==> s.response == Err(BadRequest, "Cannot find cart")
    ensures itemId in st.items && CartOf(st.carts, customer).Some? && Selected(st.cartItems, CartOf(st.carts, customer).value).None? ==>
              s.response == Err(BadRequest, "Item is not in cart")
    ensures itemId in st.items && CartOf(st.carts, customer).Some? && Selected(st.cartItems, CartOf(st.carts, customer).value).Some? ==>
              var rowId := Selected(st.cartItems, CartOf(st.carts, customer).value).value;
              (s.response.Ok? <==> quantity <= st.cartItems[rowId].quantity)
              && (s.response.Err? ==> s.response == Err(BadRequest, "Unable to remove item because of quantity"))
              && (s.response.Ok? ==>
                    && s.store == st.(cartItems := s.store.cartItems)
                    && Reduced(st.cartItems, s.store.cartItems, rowId, quantity)
                    && s.response.cart == View(s.store, CartOf(st.carts, customer).value))
  {
    if itemId !in st.items then
      Step(st, Err(BadRequest, "Cannot find item"))
    else
      match CartOf(st.carts, customer)
      case None => Step(st, Err(BadRequest, "Cannot find cart"))
      case Some(cartId) =>
        match Selected(st.cartItems, cartId)
        case None => Step(st, Err(BadRequest, "Item is not in cart"))
        case Some(rowId) =>
          var row := st.cartItems[rowId];
          if quantity > row.quantity then
            Step(st, Err(BadRequest, "Unable to remove item because of quantity"))
          else
            var left := row.quantity - quantity;
            var after :=
              if left == 0 then st.(cartItems := st.cartItems - {rowId})
              else st.(cartItems := st.cartItems[rowId := row.(quantity := left)]);
            Step(after, Ok(View(after, cartId)))
  }

  /** `findOne`: the cart with that id, with its rows. */
  function FindOne(st: Store, id: Id): (r: Response)
    ensures r.Ok? <==> id in st.carts
    ensures r.Ok? ==> r.cart == View(st, id)
    ensures r.Err? ==> r == Err(NotFound, "Cannot find cart")
  {
    if id in st.carts then Ok(View(st, id)) else Err(NotFound, "Cannot find cart")
  }

  /** `myCart`: the customer's cart, with its rows. */
  function MyCart(st: Store, customer: Id): (r: Response)
    ensures r.Ok? <==> exists k :: k in st.carts && st.carts[k].customerId == customer
    ensures r.Ok? ==> r.cart.id in st.carts && r.cart.customerId == customer && r.cart == View(st, r.cart.id)
    ensures r.Ok? && OneCartPerCustomer(st.carts) ==>
              forall k :: k in st.carts && st.carts[k].customerId == customer ==> k == r.cart.id
    ensures r.Err? ==> r == Err(NotFound, "Cannot find cart")
  {
    match CartOf(st.carts, customer)
    case None => Err(NotFound, "Cannot find cart")
    case Some(cartId) => Ok(View(st, cartId))
  }

  /** `deleteCart`: remove the cart only when it has that id and belongs to
      that customer. The cart is read without its rows. */
  function DeleteCart(st: Store, id: Id, customer: Id): (s: Step)
    ensures s.response.Ok? <==> id in st.carts && st.carts[id].customerId == customer
    ensures s.response.Ok? ==>
              && s.store == st.(carts := s.store.carts)
              && s.store.carts.Keys == st.carts.Keys - {id}
              && (forall k :: k in s.store.carts ==> s.store.carts[k] == st.carts[k])
              && s.response.cart == CartView(id, customer, None)
    ensures s.response.Err? ==> s.store == st && s.response == Err(BadRequest, "Cannot find cart")
  {
    if id in st.carts && st.carts[id].customerId == customer then
      Step(st.(carts := st.carts - {id}), Ok(CartView(id, customer, None)))
    else
      Step(st, Err(BadRequest, "Cannot find cart"))
  }
}
