/** Values shared by every part of the runtime model.

    The source stores keys, messages and results as Go `interface{}` values.
    The model narrows them to small datatypes whose equality is the equality
    Go applies to the dynamic values that the program actually uses.
 */
module Base {

  /** Absent or present value; stands for Go's nil pointer / nil interface. */
  datatype Option<+T> = None | Some(value: T)

  /** A registry or group key (`interface{}` in the source).
      `U64` is the dynamic type produced by the id generator (uint64);
      `Int` stands for the signed integer keys callers pass;
      `Str` for string keys (manager names and explicit actor keys). */
  datatype Key = U64(u: nat) | Int(i: int) | Str(s: string)

  /** A message payload or a returned value (`interface{}`). */
  datatype Value = Nil | Text(s: string) | Num(n: int) | List(items: seq<Value>)

  /** Identity of an actor (`*Svr`): a unique serial standing for the pointer,
      its key, and the identifier of the manager that created it. */
  datatype SvrRef = SvrRef(serial: nat, key: Key, owner: nat)

  /** Prefix test on sequences. */
  predicate StartsWith<T(==)>(s: seq<T>, prefix: seq<T>) {
    |prefix| <= |s| && s[..|prefix|] == prefix
  }

  /** Suffix test on sequences. */
  predicate EndsWith<T(==)>(s: seq<T>, suffix: seq<T>) {
    |suffix| <= |s| && s[|s| - |suffix|..] == suffix
  }
}
