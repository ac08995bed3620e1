/** The data a DynamoDB stream hands to the handler: typed attribute values,
    record images, and the stream records that carry them. */
module StreamRecords {
  import opened Wrappers

  /** A DynamoDB attribute value, tagged by its type. Dafny's structural
      equality on this datatype is the deep equality lodash's `isEqual`
      computes on the JSON form. */
  datatype Value =
    | S(s: string)
    | N(n: string)
    | BOOL(b: bool)
    | L(l: seq<Value>)
    | M(m: map<string, Value>)

  /** A full record image: attribute name to value. */
  type Image = map<string, Value>

  datatype EventName = INSERT | MODIFY | REMOVE

  /** `record.userIdentity`: who caused the change, present only for changes
      made by an AWS service. */
  datatype UserIdentity = UserIdentity(identityType: string, principalId: string)

  /** `record.dynamodb.Keys`: the resource id and its version number. */
  datatype Keys = Keys(id: string, vid: int)

  /** One stream record: the event kind, the actor, the keys, and the images
      before (`OldImage`) and after (`NewImage`) the change. */
  datatype StreamRecord = StreamRecord(
    eventName: EventName,
    userIdentity: Option<UserIdentity>,
    keys: Keys,
    oldImage: Option<Image>,
    newImage: Option<Image>)

  /** `image[name].S`: the string held by an attribute; None (JavaScript's
      `undefined`) when the attribute is absent or is not a string. */
  function StringAttribute(image: Image, name: string): (r: Option<string>)
    ensures r.Some? <==> name in image && image[name].S?
    ensures r.Some? ==> image[name] == S(r.value)
  {
    if name in image && image[name].S? then Some(image[name].s) else None
  }
}
