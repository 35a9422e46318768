/** Records shared by the client and the edge function: the optional value,
    the outcome of one generation-gateway call, wardrobe items and uploaded files. */
module Types {

  datatype Option<+T> = None | Some(value: T)

  /** JavaScript truthiness of an optional string: null, undefined and "" are falsy. */
  predicate Truthy(s: Option<string>) {
    s.Some? && s.value != ""
  }

  /** What an awaited gateway call settles to: the new image reference, or the
      user-facing message the caller's catch block surfaces. */
  datatype GatewayOutcome = Generated(image: string) | Failed(message: string)

  /** A wardrobe item (`WardrobeItem`): `id` is the equality key. */
  datatype Garment = Garment(id: string, name: string, url: string)

  /** The part of a browser `File` the core looks at. */
  datatype File = File(name: string, mimeType: string)
}
