/** The catalog's records (lib/supabase.ts): products with their colour
    variations, and customer orders. Money is kept in integer cents. */
module Catalog {
  import opened Common

  datatype ColorVariation = ColorVariation(name: string, hex: string, images: seq<string>)

  datatype Product = Product(
    id: string,
    title: string,
    description: string,
    priceCents: int,
    variations: seq<ColorVariation>)

  datatype OrderStatus = Pending | Confirmed | Delivered | Returned

  /** An order row. `totalPrice` is `None` when the stored price is null. */
  datatype Order = Order(
    id: string,
    productId: Option<string>,
    name: string,
    phone: string,
    address: string,
    color: string,
    status: OrderStatus,
    totalPrice: Option<int>,
    createdAt: string)

  /** What a caller hands to `createOrder`: an order without id and creation time,
      whose status may be left out. */
  datatype OrderInput = OrderInput(
    productId: Option<string>,
    name: string,
    phone: string,
    address: string,
    color: string,
    status: Option<OrderStatus>,
    totalPrice: Option<int>)

  /** The row `createOrder` inserts: the caller's fields unchanged, with a
      missing status stored as `pending`. The id and creation time are assigned
      by the database and are parameters here. */
  function NewOrderRow(input: OrderInput, id: string, createdAt: string): (o: Order)
    ensures input.status.None? ==> o.status == Pending
    ensures input.status.Some? ==> o.status == input.status.value
    ensures o.productId == input.productId && o.name == input.name && o.phone == input.phone
    ensures o.address == input.address && o.color == input.color && o.totalPrice == input.totalPrice
    ensures o.id == id && o.createdAt == createdAt
  {
    Order(id, input.productId, input.name, input.phone, input.address, input.color,
          input.status.GetOr(Pending), input.totalPrice, createdAt)
  }

  /** `product.variations[0]?.images[0] || placeholder`: the first image of the
      first variation when there is one and it is a non-empty string. */
  function ThumbnailOr(p: Product, placeholder: string): (src: string)
    ensures src == placeholder || (|p.variations| > 0 && |p.variations[0].images| > 0 && src == p.variations[0].images[0])
    ensures src != placeholder ==> src != ""
    ensures (|p.variations| > 0 && |p.variations[0].images| > 0 && p.variations[0].images[0] != "")
              ==> src == p.variations[0].images[0]
  {
    if |p.variations| > 0 && |p.variations[0].images| > 0 && p.variations[0].images[0] != ""
    then p.variations[0].images[0]
    else placeholder
  }
}
