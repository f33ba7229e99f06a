/** The configuration predefine reads from its environment at start-up, and
    the helper functions it borrows from other packages. Both are passed to
    every operation as parameters. */
module Settings {
  import opened JsValues

  /** `DEFAULT_LOCALE`, `LOCALES`, `PREDEFINE_MODEL_NAME`,
      `PREDEFINE_DEFAULT_NAMESPACE` and `PREDEFINE_NAMESPACES`, in the order the
      environment lists them. */
  datatype Config = Config(
    defaultLocale: string,
    locales: seq<string>,
    modelName: string,
    defaultNamespace: string,
    namespaces: seq<string>)

  /** The configuration when none of the variables is set. */
  const Defaults: Config := Config("en", ["en"], "Predefine", "Setting", ["Setting"])

  /** `singularize` and `abbreviate` (from the common helpers), lodash's
      `toLower`, and `collectionNameOf` (from the mongoose helpers). Their
      internals are outside this model: the operations hold for every choice
      of them. */
  datatype Library = Library(
    singularize: string -> string,
    toLower: string -> string,
    collectionNameOf: string -> string,
    abbreviate: Value -> string)
}
