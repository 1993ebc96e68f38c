/** Optional values and the failures the library can raise.

    Every failure this model covers is a JavaScript `TypeError` from using
    `undefined` or `null` as an object: reading a property of it, or
    converting it to an object (`Object.keys`, `forEach.call`). The `Cause`
    says which use it was, so that the model can state which input leads to
    which failure.
 */
module Results {

  /** `undefined`/`null` versus a present value. */
  datatype Option<+T> = None | Some(value: T)

  /** Which use of an absent value threw. */
  datatype Cause =
    | ModuleUndefined    // `_modules[module]` is undefined, so `[option]` throws
    | OptionUndefined    // `_modules[module][option]` is undefined, so `Object.keys` throws
    | NoRootElement      // `document.querySelector(id)` found nothing, so `.matches` throws
    | ConfigEmpty        // `config` has no key, so `config[undefined].name` throws
    | NotIterable        // `document.querySelector(els)` found nothing, so `forEach.call(null)` throws
    | ElementUndefined   // `modifier(text)` with truthy text and no element
    | NoTaggedAncestor   // `closest('[data-module]')` found nothing

  /** The outcome of a call: a value, or the TypeError it throws. */
  datatype Result<+T> = Ok(value: T) | TypeError(cause: Cause)
}
