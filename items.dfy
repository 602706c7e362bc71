/** The catalog's record type, as the server and the client share it. */
module Items {

  datatype Option<+T> = None | Some(value: T)

  /** One catalog entry. `price` is held in integer cents: every price the
      catalog produces has at most two decimals. `imageAlt` and `imageTags`
      are optional. */
  datatype Item = Item(
    id: string,
    name: string,
    description: string,
    price: nat,
    image: string,
    imageAlt: Option<string>,
    imageTags: Option<seq<string>>)

  /** What a caller of `addItem` supplies: an item without its id. */
  datatype ItemData = ItemData(
    name: string,
    description: string,
    price: nat,
    image: string,
    imageAlt: Option<string>,
    imageTags: Option<seq<string>>)

  /** The data of an item, its id dropped. */
  function DataOf(item: Item): ItemData {
    ItemData(item.name, item.description, item.price, item.image, item.imageAlt, item.imageTags)
  }

  /** `{ id, ...data }`: the item made of an id and the caller's data. */
  function WithId(id: string, data: ItemData): (item: Item)
    ensures item.id == id && DataOf(item) == data
  {
    Item(id, data.name, data.description, data.price, data.image, data.imageAlt, data.imageTags)
  }
}
