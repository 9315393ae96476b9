/** Objects of a manifest. */
module Objects {
  import opened Paths

  /** A parsed object, with the YAML text it was parsed from. */
  datatype Object = Object(group: string, kind: string, namespace: string, name: string, yaml: string)

  function Hash(kind: string, namespace: string, name: string): string {
    Join([kind, namespace, name], ':')
  }

  function HashOf(o: Object): string {
    Hash(o.kind, o.namespace, o.name)
  }
}
