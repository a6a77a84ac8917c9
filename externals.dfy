/**
 * The collaborators the controllers call but this model does not implement:
 * bcrypt, the JWT signer and the store's I/O. Each request
 * runs against an `Env` that fixes what they answer and which of them throw.
 */
module Externals {
  import opened Store

  /** The external calls a handler awaits; any of them may throw. */
  datatype Step =
    | QueryUsers      // User.findOne / User.find
    | HashPassword    // bcrypt.hash
    | ComparePassword // bcrypt.compare
    | SaveDocument    // document.save(): I/O failure or schema validation
    | SignToken       // generateToken (jsonwebtoken.sign)
    | UpdateUser      // User.findByIdAndUpdate: I/O failure
    | QueryMessages   // Message.find(...).populate(...), including an id that does not cast
    | PopulateMessage // message.populate(...) after the save

  /**
   * What the collaborators do during one request: `hash` is bcrypt.hash at a
   * fixed salt, `matches` is bcrypt.compare, `sign` gives the session token
   * for a user id, and `faults` names the calls that throw.
   */
  datatype Env = Env(
    hash: string -> string,
    matches: (string, string) -> bool,
    sign: Id -> string,
    faults: set<Step>)

  /** `step` throws during this request. */
  predicate Fails(env: Env, step: Step) {
    step in env.faults
  }

  /** bcrypt's guarantee: a password matches the hash made from it. */
  ghost predicate HashMatches(env: Env) {
    forall p :: env.matches(p, env.hash(p))
  }
}
