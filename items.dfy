/**
 * The records of the item service: a stored `Item`, the `ItemCreate` body that
 * create and update accept, the not-found outcome of a lookup, and the two
 * records the in-memory store starts with.
 *
 * `Price` stands for the floating-point price and `Time` for the `datetime`
 * of `created_at`: the service only stores and copies them, so the model
 * keeps them as type parameters.
 */
module Items {

  datatype Option<T> = None | Some(value: T)

  /** A stored item; `description` is `None` when the request left it unset. */
  datatype Item<Price, Time> = Item(
    id: int,
    name: string,
    description: Option<string>,
    price: Price,
    createdAt: Time)

  /** The request body of create and update: an item without id and timestamp. */
  datatype ItemCreate<Price> = ItemCreate(
    name: string,
    description: Option<string>,
    price: Price)

  /** A lookup by id either finds a value or fails with 404 "Item not found". */
  datatype Result<R> = Ok(value: R) | NotFound

  /**
   * `Item(id=id, **req.dict())`: the request's name, description and price
   * under the given id. No handler passes `created_at`, so the record gets
   * the class-level default, which is evaluated once; `createdAt` is that value.
   */
  function FromRequest<Price, Time>(id: int, req: ItemCreate<Price>, createdAt: Time): Item<Price, Time>
  {
    Item(id, req.name, req.description, req.price, createdAt)
  }

  /** The two records the store holds when the service starts. */
  function Seed<Price, Time>(laptopPrice: Price, mousePrice: Price, createdAt: Time): seq<Item<Price, Time>>
  {
    [ Item(1, "Laptop", Some("MacBook Pro"), laptopPrice, createdAt),
      Item(2, "Mouse", Some("Wireless mouse"), mousePrice, createdAt) ]
  }
}
