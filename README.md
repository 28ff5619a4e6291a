# sample-android-library: secret lookup, POM dependency nodes and `Person`

This project models the few parts of the sample Android library repository that hold logic, and proves properties about them:

- **Layered secret lookup** (`samplelib/build.gradle.kts`, module `EnvSecrets`). `loadEnv` fills a `java.util.Properties` table from an optional `.env` file. A missing file is not an error: the table is then empty. `getEnv(key)` is `env.getProperty(key) ?: System.getenv(key)`. The `.env` table is asked first and the process environment second. Kotlin's `?:` falls back only on `null`, so a key the `.env` table holds hides the environment even when its value is empty. The two-layer lookup is proved equal to a general chain of providers (`ResolveChain`), where the first layer holding the key answers.
- **POM dependency nodes** (the `pom.withXml` hook, module `PomDependencies`). The hook appends one `dependencies` node to the POM root. It then walks the declared `implementation` dependencies in order. For each one whose group and version are both non-null, it appends a `dependency` node with four leaves: `groupId`, `artifactId`, `version`, and `scope` set to `runtime`. The node tree is a `Node` class whose `children` sequence is appended in place. The hook (`WithXml`, whose loop is `AppendDependencies`) is proved to build exactly the nodes of a pure filter-map, `Manifest`, every one of them a new object. The properties of `Manifest` (count, membership, order, concatenation) are proved as lemmas.
- **`Person`** (`sampleapp/.../Person.java`, module `SampleApp`). A class with a nullable `name` and a 32-bit `age`, two constructors, and `toString`. The model covers Java's rendering of `null` as `null` and its base-10 rendering of an `int`. It proves that both fields can be read back from the `toString` text. The age is recovered exactly. The name is recovered as its rendering, even when it contains quotes or `=`.

The `.env` file's contents and the process environment are inputs given as `map<string, string>`. A missing `.env` file is the `Missing` case of `EnvFile`. Java/Kotlin `null` is `None` of `Wrappers.Option`.

Kotlin's `?:` skips only `null`, so an empty `.env` value wins over a non-empty environment value (`GetEnv`'s first ensures; `EmptyValueShadowsEnvironment`).

## Model

| member | source | states |
|---|---|---|
| `Wrappers.Lookup` | samplelib/build.gradle.kts:20 | a table lookup answers non-null exactly when the key is present, and then with the stored value (`getProperty`, `System.getenv`) |
| `EnvSecrets.Properties.constructor` | samplelib/build.gradle.kts:10 | a new `Properties` table is empty |
| `EnvSecrets.Properties.Load` | samplelib/build.gradle.kts:12 | loading puts every parsed pair into the table; loaded keys override, other keys are kept |
| `EnvSecrets.Properties.GetProperty` | samplelib/build.gradle.kts:20 | `getProperty` is non-null exactly for keys in the table, and then returns the stored value |
| `EnvSecrets.LoadEnv` | samplelib/build.gradle.kts:8-15 | returns a fresh table; it is empty when the `.env` file does not exist, and holds the file's pairs when it does |
| `EnvSecrets.GetEnv` | samplelib/build.gradle.kts:19-21 | a key in the `.env` table gives that value and the environment is ignored, even for an empty value; otherwise the environment's value; `null` exactly when the key is in neither |
| `EnvSecrets.ResolveChainFirst` | samplelib/build.gradle.kts:20 | a chain of providers answers with the value of the first layer that holds the key |
| `EnvSecrets.ResolveChainNone` | samplelib/build.gradle.kts:20 | a chain answers `null` exactly when no layer holds the key |
| `EnvSecrets.GetEnvIsChain` | samplelib/build.gradle.kts:19-21 | `getEnv` equals the two-layer chain: the `.env` table, then the environment |
| `EnvSecrets.Resolve` | samplelib/build.gradle.kts:17-21 | `loadEnv` then `getEnv`: without a `.env` file the result is the plain environment lookup; with one, a key in the file gives the file's value, and any other key gives the environment's value |
| `PomDependencies.Qualifies` | samplelib/build.gradle.kts:75 | a dependency is emitted exactly when its group and its version are both non-null; the name plays no part |
| `PomDependencies.EntryOf` | samplelib/build.gradle.kts:76-80 | the emitted entry copies group, name and version unchanged and fixes the scope to `runtime` |
| `PomDependencies.Manifest` | samplelib/build.gradle.kts:74-81 | the filter-map the hook performs emits at most one entry per declared dependency, and every entry has scope `runtime` |
| `PomDependencies.ManifestAppend` | samplelib/build.gradle.kts:74 | dependencies are treated one at a time: the entries for `a + b` are those for `a` followed by those for `b` |
| `PomDependencies.ManifestCount` | samplelib/build.gradle.kts:74-76 | the number of entries equals the number of declared dependencies whose group and version are both non-null |
| `PomDependencies.ManifestMembership` | samplelib/build.gradle.kts:74-81 | an entry is emitted exactly when some declared dependency with non-null group and version projects to it (group, name, version, `runtime`); the name is copied whatever it is |
| `PomDependencies.EntryPosition` | samplelib/build.gradle.kts:74-81 | a qualifying dependency's entry sits right after the entries of the dependencies declared before it |
| `PomDependencies.ManifestKeepsOrder` | samplelib/build.gradle.kts:74-81 | for two qualifying dependencies, the earlier one's entry comes before the later one's |
| `PomDependencies.Node.AppendNode` | samplelib/build.gradle.kts:76-80 | `appendNode` creates a fresh child with the given name and value, adds it as the last child and returns it; nothing else changes |
| `PomDependencies.AppendDependency` | samplelib/build.gradle.kts:76-80 | the body of the `if`: appends one new `dependency` node to `dependencies`, holding four new, distinct leaves `groupId`, `artifactId`, `version`, `scope` with the entry's values |
| `PomDependencies.ManifestStep` | samplelib/build.gradle.kts:74-75 | one more declared dependency adds its entry at the end exactly when its group and version are both non-null, and nothing otherwise |
| `PomDependencies.EmitNode` | samplelib/build.gradle.kts:76-80 | appending the node of a qualifying dependency keeps the nodes built so far in place and adds exactly one node after them, the node of its entry; the new node and its leaves are new objects, and still no leaf is shared |
| `PomDependencies.EmitStep` | samplelib/build.gradle.kts:75-81 | one turn of the loop: a dependency with non-null group and version adds exactly one node after the existing ones, which stay in place; any other leaves the children unchanged; the nodes built so far still match the manifest of the dependencies seen, every node added is new, and no leaf is shared |
| `PomDependencies.AppendDependencies` | samplelib/build.gradle.kts:74-82 | the `forEach` over the declared dependencies, in order, leaves the `dependencies` node describing the whole manifest, with only new nodes below it and no leaf shared |
| `PomDependencies.WithXml` | samplelib/build.gradle.kts:72-83 | the root gains exactly one new `dependencies` node, even when no dependency qualifies; that node holds one fresh `dependency` node per manifest entry, in declaration order, no two of them the same object; each has exactly the leaves `groupId`, `artifactId`, `version`, `scope`, in that order, with the entry's values; every leaf is a new object and no leaf stands at two places in the subtree; only the root among pre-existing nodes changes |
| `PomDependencies.FilterScenario` | samplelib/build.gradle.kts:75-80 | a dependency with a null group and one with a null version are dropped, and an entry with an empty artifact name is kept |
| `SampleApp.Digits` | sampleapp/src/main/java/com/fearth/sample/android/sampleapp/Person.java:20 | the digits of a natural number are a non-empty run of `0`-`9` with no leading zero; a number below ten, zero included, is a single digit |
| `SampleApp.Decimal` | sampleapp/src/main/java/com/fearth/sample/android/sampleapp/Person.java:20 | the rendering of an `int` starts with `-` exactly when it is negative, and is otherwise made of digits; a negative number's digits follow the `-` with no leading zero; with `DecimalRoundTrip` and the `Digits` contract this fixes `Integer.toString`'s canonical text |
| `SampleApp.DigitsRoundTrip` | sampleapp/src/main/java/com/fearth/sample/android/sampleapp/Person.java:20 | reading the digits back gives the number |
| `SampleApp.DecimalRoundTrip` | sampleapp/src/main/java/com/fearth/sample/android/sampleapp/Person.java:20 | reading a decimal rendering back gives the number rendered, negative ones included |
| `SampleApp.DecimalInjective` | sampleapp/src/main/java/com/fearth/sample/android/sampleapp/Person.java:20 | two different ages never render alike |
| `SampleApp.DigitsWidth` | sampleapp/src/main/java/com/fearth/sample/android/sampleapp/Person.java:7 | helper of `DecimalWidth`: a number below 10^k has at most k digits |
| `SampleApp.DecimalWidth` | sampleapp/src/main/java/com/fearth/sample/android/sampleapp/Person.java:7 | an `int` age renders in at most eleven characters |
| `SampleApp.NameText` | sampleapp/src/main/java/com/fearth/sample/android/sampleapp/Person.java:20 | Java's string concatenation renders a `null` `String` operand as `null` and any other string verbatim |
| `SampleApp.Person.Default` | sampleapp/src/main/java/com/fearth/sample/android/sampleapp/Person.java:5-10 | `Person()` leaves `name` null and `age` 0, Java's field defaults |
| `SampleApp.Person.constructor` | sampleapp/src/main/java/com/fearth/sample/android/sampleapp/Person.java:12-15 | `Person(name, age)` stores both arguments unchanged |
| `SampleApp.Person.ToString` | sampleapp/src/main/java/com/fearth/sample/android/sampleapp/Person.java:19-21 | `toString` only reads the object; its text starts with `Person{name='`, ends with `}`, and carries the name's rendering verbatim right after the prefix (`null` for a null name) |
| `SampleApp.ReadRendering` | sampleapp/src/main/java/com/fearth/sample/android/sampleapp/Person.java:20 | from `Person{name='<name>', age=<age>}` the age and the name text can be read back, whatever characters the name holds (the reader's search for the last `=` is the helper `LastIndexOf`, with `LastIndexOfJoin`) |
| `SampleApp.ToStringRecoversFields` | sampleapp/src/main/java/com/fearth/sample/android/sampleapp/Person.java:19-21 | the `toString` text determines `age` exactly and `name` up to its rendering |
| `SampleApp.NullNameIndistinguishable` | sampleapp/src/main/java/com/fearth/sample/android/sampleapp/Person.java:20 | a null name and the string `"null"` give the same `toString` text |

## Left out

- `JsonHelper` (samplelib's JSON wrapper) is not part of this model. Its behaviour depends entirely on Jackson's `ObjectMapper`. It returns `"{}"` when serialisation fails and `null` when parsing fails.
- Reading the `.env` file and the `key=value` syntax of `Properties.load` are not modelled. The file is given already parsed, as a map.
- A `.env` that exists but cannot be read or parsed is not modelled. Examples are a directory of that name, or a malformed `\u` escape. There `loadEnv` throws and the build fails; `EnvFile` has no case for it.
- `System.getenv` is replaced by an input map.
- `EnvSecrets.Resolve` loads the table on each call. The script loads it once per build into `val env`. The lookup does not depend on that, because nothing changes the table after loading.
- The Android, plugin and dependency-list configuration is not modelled. This covers plugins, SDK levels, ProGuard, Java compatibility and the `implementation` list. It is static data, and the declared dependencies are an input sequence here.
- Gradle property lookups and their failure when a property is missing are not modelled. Neither are the repository URL and the wiring of `getEnv` results into the credentials. These belong to Gradle's provider and maven-publish APIs.
- The POM root's existing content, node attributes and parent links are not modelled. Neither is serialisation of the tree to XML, nor the upload. `Node` keeps only a name, an optional text value and the ordered children.
- Java strings are sequences of UTF-16 code units; here they are `seq<char>`, and no encoding is modelled.
