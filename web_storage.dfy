/**
 * The browser's per-tab session storage (the Web Storage interface): a map from
 * key strings to value strings.
 */
module WebStorage {
  import opened Wrappers
  import opened JsStrings

  class SessionStorage {
    var items: map<JsString, JsString>

    constructor ()
      ensures items == map[]
    {
      items := map[];
    }

    /** getItem: the stored string, or null when the key is absent. */
    method GetItem(key: JsString) returns (item: Option<JsString>)
      ensures key in items ==> item == Some(items[key])
      ensures key !in items ==> item == None
    {
      item := if key in items then Some(items[key]) else None;
    }

    /**
     * setItem: stores the value under the key, or throws (QuotaExceededError) and
     * leaves the storage as it was. Whether the browser accepts the write is `fits`.
     */
    method SetItem(key: JsString, value: JsString, fits: bool) returns (stored: bool)
      modifies this
      ensures stored == fits
      ensures fits ==> items == old(items)[key := value]
      ensures !fits ==> items == old(items)
    {
      stored := fits;
      if fits {
        items := items[key := value];
      }
    }

    /** removeItem: the key and its value are gone; other keys are untouched. */
    method RemoveItem(key: JsString)
      modifies this
      ensures items == old(items) - {key}
    {
      items := items - {key};
    }
  }
}
