/**
 * The Bluetooth scan record shared by the three deduplication scripts.
 *
 * A row of the scan log has 21 columns. Only three of them take part in
 * deduplication: the trilaterated position (`trilat`, `trilong`) and the
 * free-text `name`. The other eighteen are carried through unchanged and are
 * grouped in `Fields`. The coordinate type is a parameter: the radius script
 * and the exact-match script keep raw coordinates (`real`), the rounding
 * script keeps them rounded to five decimals (an `int` count of 1e-5 degrees).
 */
module Records {

  /** The eighteen columns that deduplication never looks at, in file order. */
  datatype Fields = Fields(
    ssid: string,
    qos: int,
    transid: string,
    firsttime: string,
    lasttime: string,
    lastupdt: string,
    netid: string,
    kind: string,          // the column called `type`
    capabilities: string,
    userfound: string,
    device: string,
    mfgrId: string,
    country: string,
    region: string,
    road: string,
    city: string,
    housenumber: string,
    postalcode: string)

  /** One scan record with coordinates of type `C`. */
  datatype Record<C> = Record(trilat: C, trilong: C, name: string, fields: Fields)

  /** The identity key of the radius script: the record's name. */
  function NameOf<C>(r: Record<C>): string
  {
    r.name
  }

  /** The identity key of the exact-match scripts: the coordinate pair. */
  function CoordsOf<C>(r: Record<C>): (C, C)
  {
    (r.trilat, r.trilong)
  }
}
