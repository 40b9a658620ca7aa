/** The errors the secret store and its keeper report, one constructor per distinct
    failure of the Go code (which returns them all as `error`). */
module Errors {

  datatype Error =
    | MissingAuth          // "missing auth info in context"
    | MissingName          // "missing name"
    | MissingValue         // "missing value"
    | NotFound             // "not found"
    | SecretInAnnotations  // "raw secret found in annotations"
    | SecretInLabels       // "raw secret found in labels"
    | SecretInApis         // "raw secret found in apis"
    | MalformedJson        // json.Unmarshal rejected a stored field
    | CorruptBase64        // base64.CorruptInputError
    | SaltNotFound         // "salt not found in value"
    | RandomFailure        // util.GetRandomString could not read random bytes
    | DuplicateKey         // the table's unique (namespace, name) or primary (uid) key rejected a write
}
