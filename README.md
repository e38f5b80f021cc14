# Cart workflow of the stockshop API, in Dafny

This project models the cart service of the stockshop API
(`src/cart/cart.service.ts`): a customer adds items to a cart, removes
quantities from it, reads it back by cart id or as "my cart", and deletes it.
The service works on three tables, reached through TypeORM repositories:

- **items**: id → stock count and status (`"AVAILABLE"` or another string);
- **carts**: id → owning customer id;
- **cart items**: id → cart id, item id and quantity.

The model has four modules:

- `CartTables` (`tables.dfy`): ids, rows, the `Store` value holding the three
  tables, and the repository lookups the service performs. It also states
  the invariant the workflow keeps: one cart per customer, no two rows for
  the same item in one cart, and id sequences ahead of every id in use. The
  source asks for no order in its lookups, so it does not define which of
  several matching rows comes first. The model fixes that order as ascending
  primary key: a lookup returns the least matching key (`Least`, proved to
  exist by `LeastExists`).
- `CartWorkflow` (`workflow.dfy`): each service method as a function from a
  store to a `Step` (the next store and the response). A response is
  `Ok(cart)` or `Err(status, message)`, with the status and message the
  service throws.
- `CartProperties` (`properties.dfy`): lemmas relating calls to each other and
  to the invariant.
- `Service` (`service.dfy`): the class `CartService`, whose fields are the
  three tables and whose methods update them step by step, in the order of the
  source. Each method is proved to produce exactly the step of the
  corresponding `CartWorkflow` function, and to keep the invariant. `FindOne`
  and `MyCart` only read, and are functions.

Modelling decisions:

- Ids are natural numbers; the null id, the only falsy one, is 0. Inserts
  take their ids from two sequences (`nextCartId`, `nextCartItemId`), so a new
  cart id is a key that no cart has and that no cart item points at.
- `removeItem` is modelled as written. Its cart item lookup
  (`cart.cart_items.find(item => item.item_id)`) takes the first row of the
  cart whose item id is truthy, not the row for the requested item. Which row
  is "first" follows the model's choice of order (ascending key). The
  requested item id is only checked to name a known item.
  `CartProperties.RemoveItemIgnoresRequestedItem` shows a call that removes
  the row of another item than the one requested. Its cart has a single row,
  so its result holds whatever the row order.
- `reduceItemQuantity` (in `cart.helper`, which is not part of this model) is
  taken to subtract the requested quantity from the row's quantity.
- Quantities are unbounded integers, and the model requires nothing of them
  beyond what the service checks. As a result, `addItem` with a quantity of
  zero or less, on an item whose stock is at least that, inserts a row with
  that quantity. The "no row of quantity zero or less" property is therefore
  kept by `removeItem` always, but by `addItem` only for a positive quantity.

## Model

| member | source | states |
|---|---|---|
| `CartTables.CartOf` | src/cart/cart.service.ts:31 | The cart found for a customer is absent exactly when no cart belongs to them. Otherwise it belongs to them and, in the model's order, is their first cart (least key). |
| `CartTables.Selected` | src/cart/cart.service.ts:68 | The row that `removeItem` selects is absent exactly when no row of the cart has a truthy item id. Otherwise it is such a row of the cart, whatever item it refers to, and in the model's order the first one (least key). |
| `CartWorkflow.AddItem` | src/cart/cart.service.ts:22-55 | Every failure leaves the store unchanged. An unknown item gives "Cannot find item"; stock below the quantity or a status other than AVAILABLE gives "Item not available". Success happens exactly when the item is known, available and in stock, and the customer's existing cart does not already hold it. On success, the items table is unchanged (stock is never decremented), the existing cart is reused or one cart is created for the customer, exactly one row (cart, item, quantity) is inserted, and the cart is returned with its rows. |
| `CartWorkflow.RemoveItem` | src/cart/cart.service.ts:57-84 | Every failure leaves the store unchanged. The four failures are: "Cannot find item", "Cannot find cart", "Item is not in cart" (no row selected), and a quantity above the selected row's. On success, only the cart item table changes. The selected row loses the quantity; it is deleted exactly when nothing is left; every other row is unchanged. The cart is returned with its rows. |
| `CartWorkflow.FindOne` | src/cart/cart.service.ts:90-99 | Succeeds exactly when a cart has that id and returns it with its rows; otherwise NOT_FOUND "Cannot find cart". Reads only. |
| `CartWorkflow.MyCart` | src/cart/cart.service.ts:101-110 | Succeeds exactly when some cart belongs to the customer and returns a cart of theirs with its rows, which is their only cart when the invariant holds; otherwise NOT_FOUND "Cannot find cart". Reads only. |
| `CartWorkflow.DeleteCart` | src/cart/cart.service.ts:116-127 | Succeeds exactly when a cart has both that id and that customer. On success, exactly that cart is removed, nothing else changes, and the cart is returned without its rows. Otherwise BAD_REQUEST "Cannot find cart" and nothing changes. |
| `CartProperties.FreshCartHoldsNothing` | src/cart/cart.service.ts:32-41 | A cart id not yet handed out has no rows, so a cart created by `addItem` can never hit the "Item already in cart" error. |
| `CartProperties.AddItemKeepsValid` | src/cart/cart.service.ts:31-47 | `addItem` keeps one cart per customer, no duplicate (cart, item) rows and fresh ids. It keeps all quantities positive when the quantity added is positive. |
| `CartProperties.AddItemCounts` | src/cart/cart.service.ts:31-47 | After a successful `addItem` the customer has one more cart if they had none and the same carts otherwise; there is exactly one more row, and every existing row is unchanged. |
| `CartProperties.RemoveItemKeepsValid` | src/cart/cart.service.ts:73-75 | `removeItem` keeps the invariant and never leaves a row of quantity zero or less where there was none. |
| `CartProperties.DeleteCartKeepsValid` | src/cart/cart.service.ts:118-121 | `deleteCart` keeps the invariant. |
| `CartProperties.AddItemTwiceRejected` | src/cart/cart.service.ts:40-44 | A second `addItem` of the same item for the same customer fails with "Item already in cart" (or "Item not available" when out of stock) and writes nothing. |
| `CartProperties.AddThenRemoveEmptiesCart` | src/cart/cart.service.ts:22-84 | A customer without a cart adds 2 of an item with stock 5: a new cart holding one row of 2 is returned. Removing 2 then deletes the row and returns the cart with no rows. |
| `CartProperties.RemoveItemIgnoresRequestedItem` | src/cart/cart.service.ts:68 | In a cart whose only row is for item 1, asking to remove item 2 (a known item) succeeds and deletes the row of item 1. |
| `Service.CartService.constructor` | src/cart/cart.service.ts:16 | The service is attached to existing tables that satisfy the invariant, and holds exactly them. |
| `Service.CartService.FindOne` | src/cart/cart.service.ts:90-99 | Reads the tables only. It succeeds exactly when a cart has that id, and its response is that of `CartWorkflow.FindOne`. |
| `Service.CartService.MyCart` | src/cart/cart.service.ts:101-110 | Reads the tables only. It succeeds exactly when some cart belongs to the customer, and its response is that of `CartWorkflow.MyCart`. |
| `Service.CartService.AddItem` | src/cart/cart.service.ts:22-55 | Updates the tables in place: it inserts the cart (taking the generated id) and then the row. The resulting tables and response are exactly those of `CartWorkflow.AddItem`, and the invariant is kept. |
| `Service.CartService.RemoveItem` | src/cart/cart.service.ts:57-84 | Modifies only the cart item table. It reduces the selected row and then removes or saves it. The result is exactly that of `CartWorkflow.RemoveItem`, and the invariant and positive quantities are kept. |
| `Service.CartService.DeleteCart` | src/cart/cart.service.ts:116-127 | Modifies only the cart table. The result is exactly that of `CartWorkflow.DeleteCart`, and the invariant is kept. |

## Left out

- `src/admin/repositories/admin.repository.ts`: its `findByQuery` is a pass-through to the ORM's `findAndCount` that replaces any failure with "Cannot query"; the ORM is not part of this model.
- The stub methods `create`, `findAll` and `update`, which only return fixed strings.
- The error wrapping by `makeResError` and the response envelope of `apiResWrapper` (`src/helpers`, not part of this model): a failure is modelled as the status and message thrown inside the method, and a success as the cart returned.
- Promises, `async`/`await` and concurrent requests: each repository call is an atomic table operation, and calls run one at a time. The race between `addItem`'s stock check and its insert is therefore not modelled.
- Failures of the database itself (a rejected insert, save or remove): the model's repository operations always succeed.
- Relation expansion on the re-read: a returned cart carries its rows, not the nested item entities.
- Cascading deletes: `deleteCart` removes the cart row only. Whether its rows are deleted with it depends on the storage layer, which is not part of this model; the id sequences keep such rows from ever attaching to a new cart.
- Row order: the source's `findOne` calls (lines 31, 64, 103) and the `cart_items` relation scanned at line 68 ask for no order. Which matching cart is found, and which truthy row `removeItem` selects, is therefore not defined by the source. The model fixes it to ascending primary key.
- DTO validation and the customer object: a customer is just an id, and no bound is placed on quantities.
- JavaScript numbers: stock and quantities are integers in the model. Non-integral quantities, and `NaN` from a missing field (for which `cartItem.quantity === 0` never holds), are not modelled.
- The object `deleteCart` returns: the source returns the entity it passed to `cartRepository.remove`, which the ORM may change (for instance by clearing its primary key). The model returns the cart's id and customer as they were read.
