/** Readings as the store holds them: documents from field names to values. */
module Documents {

  /**
   * A field value of a stored document, as far as the core looks at it: integers
   * (timestamps), strings (the sensor type, a rendered timestamp), the store's object
   * identifiers, and every other kind of value (null, lists, nested documents) as `Other`.
   */
  datatype Value = Int(i: int) | Str(s: string) | ObjectId(oid: nat) | Other(tag: nat)

  /** A document: a Python dict / BSON document with string keys. */
  type Record = map<string, Value>

  const SensorTypeField := "sensorType"
  const TimestampField := "timestamp"
  const IdField := "_id"
  const Temperature := "temperature"

  /** The document matches the query `{"sensorType": sensorType}`. */
  predicate IsOfType(r: Record, sensorType: string) {
    SensorTypeField in r && r[SensorTypeField] == Str(sensorType)
  }

  predicate HasIntTimestamp(r: Record) {
    TimestampField in r && r[TimestampField].Int?
  }

  function Timestamp(r: Record): int
    requires HasIntTimestamp(r)
  {
    r[TimestampField].i
  }
}
