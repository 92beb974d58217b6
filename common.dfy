/** Small definitions shared by every part of the Pub plugin model. */
module Common {

  /** A value that may be absent: used for a JSON key that may be missing. */
  datatype Option<T> = None | Some(value: T)

  /** No element of `s` occurs twice. */
  ghost predicate NoDup<T>(s: seq<T>) {
    forall i, j :: 0 <= i < j < |s| ==> s[i] != s[j]
  }

  /** The identity string `name(version)` under which a package is keyed
      in the relation tree and in the purl dictionary. */
  function Key(name: string, version: string): string {
    name + "(" + version + ")"
  }

  lemma AppendAssoc<T>(a: seq<T>, b: seq<T>, c: seq<T>)
    ensures (a + b) + c == a + (b + c)
  {
  }

  lemma MapUpdateTwice<K, V>(m: map<K, V>, k: K, a: V, b: V)
    ensures m[k := a][k := b] == m[k := b]
  {
  }
}
