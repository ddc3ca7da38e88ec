/** The configuration records both plugins read (packages/shared/src/html-config/types.ts). */
module ZelpisTypes {
  import opened Wrappers

  datatype Meta = Meta(
    title: Option<string>, description: Option<string>, keywords: Option<string>,
    viewport: Option<string>, charset: Option<string>, lang: Option<string>)

  datatype BodyConfig = BodyConfig(attributes: Option<map<string, string>>, content: Option<string>)

  /** Carried through to the template resolver, which is not part of this model. */
  datatype HtmlConfig = HtmlConfig(
    template: Option<string>, meta: Option<Meta>, head: Option<seq<string>>,
    body: Option<BodyConfig>, custom: Option<string>)

  /** One mount point: a URL base path, its bootstrap module and its DSL directory. */
  datatype Entry = Entry(basePath: string, entryPath: string, dslPath: Option<string>, html: Option<HtmlConfig>)

  /**
   * An optional property of a JavaScript object: not there at all, there but `undefined`, or
   * there with a value. A spread and `Object.assign` copy the second kind as well.
   */
  datatype Prop<T> = Absent | Undefined | Has(value: T)

  /** The `zelpis` field of the host configuration, with the render plugin's `baseDir` option. */
  datatype ZElpisConfig = ZElpisConfig(entrys: seq<Entry>, defaultHtml: Prop<HtmlConfig>, baseDir: Prop<string>)

  /** A loaded DSL payload: what a module's default export holds. */
  datatype Json =
    | JNull
    | JBool(b: bool)
    | JNumber(n: int)
    | JString(s: string)
    | JArray(items: seq<Json>)
    | JObject(fields: map<string, Json>)

  /** `{}` */
  const EmptyObject: Json := JObject(map[])

  /** The two tokens of STANDARD_PLACEHOLDERS, whose text is not part of this model. */
  datatype Placeholders = Placeholders(appBodyStart: string, appInjectScript: string)

  /** The mount element substituted for the body-start placeholder. */
  const AppMount: string := "<div id=\"app\"></div>"

  /** JavaScript truthiness of an optional string: present and not empty. */
  predicate Truthy(s: Option<string>) {
    s.Some? && s.value != ""
  }
}
