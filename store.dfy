/** The Redis database the registry runs against, reduced to the three
    commands it uses: GET, SET and INCR over string keys. */
module KeyValueStore {

  /** A stored value: a text value written by SET, or an integer kept by
      INCR. Redis itself stores both as strings; the split records which
      command wrote the key, and a SET value is never read as an integer
      (the registry never INCRs a key it SETs). */
  datatype Value = Text(text: string) | Count(count: int)

  datatype Option<T> = None | Some(value: T)

  /** Why INCR refuses: the key does not hold an integer ("value is not an
      integer or out of range"), or the increment would leave the signed
      64-bit range. */
  datatype StoreError = NotAnInteger | Overflow

  datatype IncrResult = Incremented(value: int) | Failed(error: StoreError)

  const MaxInt64: int := 0x7FFF_FFFF_FFFF_FFFF

  type Db = map<string, Value>

  /** Python truthiness of what GET returns: an empty byte string is false,
      any integer reply is a non-empty byte string and so true. */
  predicate Truthy(v: Value) {
    v.Count? || v.text != []
  }

  /** INCR on the database `db`: an absent key counts as 0, and the reply
      is the new value. */
  function IncrReply(db: Db, key: string): (r: IncrResult)
    ensures key !in db ==> r == Incremented(1)
    ensures r.Incremented? ==> r.value <= MaxInt64
    ensures r.Incremented? && key in db ==> db[key].Count? && r.value == db[key].count + 1
    ensures r == Failed(NotAnInteger) <==> key in db && db[key].Text?
    ensures key in db && db[key].Count? ==> (r == Failed(Overflow) <==> db[key].count >= MaxInt64)
  {
    if key !in db then Incremented(1)
    else match db[key]
      case Text(_) => Failed(NotAnInteger)
      case Count(n) => if n >= MaxInt64 then Failed(Overflow) else Incremented(n + 1)
  }

  /** The database after INCR: the new value stored on success, nothing
      changed on failure. */
  function AfterIncr(db: Db, key: string): (r: Db)
    ensures IncrReply(db, key).Failed? ==> r == db
    ensures IncrReply(db, key).Incremented? ==>
              r.Keys == db.Keys + {key} && r[key] == Count(IncrReply(db, key).value)
    ensures forall k :: k in db && k != key ==> k in r && r[k] == db[k]
  {
    match IncrReply(db, key)
    case Incremented(n) => db[key := Count(n)]
    case Failed(_) => db
  }

  class Store {
    var data: Db

    constructor()
      ensures data == map[]
    {
      data := map[];
    }

    /** GET: the stored value, or None when the key is absent. */
    method Get(key: string) returns (r: Option<Value>)
      ensures r.Some? <==> key in data
      ensures r.Some? ==> r.value == data[key]
    {
      if key in data {
        r := Some(data[key]);
      } else {
        r := None;
      }
    }

    /** SET: overwrite or create one key. */
    method Set(key: string, v: Value)
      modifies this
      ensures data == old(data)[key := v]
    {
      data := data[key := v];
    }

    /** INCR: atomic increment-and-get of one key. */
    method Incr(key: string) returns (r: IncrResult)
      modifies this
      ensures r == IncrReply(old(data), key)
      ensures data == AfterIncr(old(data), key)
    {
      r := IncrReply(data, key);
      if r.Incremented? {
        data := data[key := Count(r.value)];
      }
    }
  }
}
