# SimpleRedisCrud core in Dafny

This project models the logic of the SimpleRedisCrud console application (Java, Jedis, Spring). It covers four parts:

- **`RedisOperations`** (module `Operations`). This is the key-value facade. The remote Redis store is a finite map from key to payload, kept in the `store` field of class `RedisOperations`. The facade has:
  - single save and single get;
  - a bulk save, written as a loop of SETs over the map's entries;
  - a bulk get, written as two loops: one collects a reply per key, the other decodes the non-null replies in order;
  - `deleteKeys`.
- **The object codec** (module `Codec`). `serializeObject` is reduced to wrapping a tagged value. `deserializeObject` is reduced to its two checks: the payload must be readable, and the object's class must be the requested one. A mismatch raises `IllegalArgumentException`.
- **`UserService`** (module `Service`). These are read-then-write policies keyed by the user's e-mail:
  - `saveUser` is insert-only and `updateUser` is update-only;
  - `saveOrUpdateUsers` keeps the last user for each e-mail;
  - every facade failure is rethrown wrapped in `RuntimeException`, except in `saveOrUpdateUser`, which wraps only `IOException` and lets unchecked exceptions pass unwrapped (UserService.java:69-74).
- **`RedisInstanceSetup`** (module `InstanceSetup`). This is the endpoint-configuration singleton. Java's static `instance` field becomes the field of a `SetupRegistry` object.
- **`Application`** (modules `Console` and `JavaString`). This is the console command layer:
  - Java's `String.split(" ")`;
  - the token parsers;
  - `execute`'s dispatch on the upper-cased first character;
  - the read loop of `run`, over a sequence of console lines.

Each imperative method is proved against a specification function:

| method | specification function |
|---|---|
| `GetObject` | `Get` |
| `GetListObject` | `GetList` |
| `DeleteKeys` | `DeleteCount` |
| `SaveUser` | `InsertOnly` |
| `UpdateUser` | `UpdateOnly` |
| `Execute` | `Perform` |
| `Run` | `RunSession` |

The properties the source promises are proved as lemmas about those functions.

Three behaviours of the facade are easy to misread, and the model keeps them as written:

- `saveOrUpdateBulkObject` checks only for null, although its message says "null or empty" (RedisOperations.java:152-153). An empty map is accepted and writes nothing.
- `deleteKeys` does not raise when a key is absent (RedisOperations.java:233-239). It returns the number of distinct given keys that existed.
- In `getListObject`, a non-null reply that does not decode aborts the whole call with the decoder's exception (RedisOperations.java:209-213). Only null replies are skipped.

## Model

| member | source | states |
|---|---|---|
| Codec.Deserialize | simple-crud/src/main/java/com/gbmartins/redis/dao/RedisOperations.java:316-349 | decoding succeeds exactly when the payload holds an object of the requested class, and then returns that object; an unreadable payload raises the stream error; an object of another class raises IllegalArgumentException |
| Codec.RoundTrip | simple-crud/src/main/java/com/gbmartins/redis/dao/RedisOperations.java:268-300 | a serialized value decodes, as its own class, to a value equal field by field |
| Codec.WrongClassRejected | simple-crud/src/main/java/com/gbmartins/redis/dao/RedisOperations.java:325-329 | decoding a serialized value as any other class raises IllegalArgumentException |
| Operations.Get | simple-crud/src/main/java/com/gbmartins/redis/dao/RedisOperations.java:115-141 | a missing key gives null and no error; a present key gives its object exactly when the payload decodes as the requested class; otherwise the decoder's exception |
| Operations.SaveThenGet | simple-crud/src/main/java/com/gbmartins/redis/dao/RedisOperations.java:78-141 | after a save of `v` under `k`, reading `k` as the class of `v` gives `v`, and every other key reads as before |
| Operations.BulkSaveThenGet | simple-crud/src/main/java/com/gbmartins/redis/dao/RedisOperations.java:150-179 | after a bulk save, every key of the batch reads back as its value and every other key reads as before |
| Operations.GetList | simple-crud/src/main/java/com/gbmartins/redis/dao/RedisOperations.java:190-193 | a null or empty key list raises RuntimeException("keys cannot be null or empty") |
| Operations.DecodePresent | simple-crud/src/main/java/com/gbmartins/redis/dao/RedisOperations.java:209-213 | decoding the replies never yields more values than replies, and every value is of the requested class |
| Operations.Responses | simple-crud/src/main/java/com/gbmartins/redis/dao/RedisOperations.java:203-206 | the pipeline gives one reply per key, in key order; a reply is null exactly for a missing key and is otherwise the payload stored under it |
| Operations.ResponsesOfPresentKeys | simple-crud/src/main/java/com/gbmartins/redis/dao/RedisOperations.java:203-213 | the non-null replies are the payloads of the present keys, one each, in key order |
| Operations.PresentKeys | simple-crud/src/main/java/com/gbmartins/redis/dao/RedisOperations.java:203-213 | the present keys are exactly the requested keys that exist in the store, in request order |
| Operations.GetListExact | simple-crud/src/main/java/com/gbmartins/redis/dao/RedisOperations.java:190-224 | for a non-empty key list: the call succeeds if and only if every present key decodes as the requested class; on success it returns one value per present key, in key order, equal to that key's stored value, so misses are dropped and the length is the number of present keys; on failure the error is the decoding error of a present key |
| Operations.DecodePresentExact | simple-crud/src/main/java/com/gbmartins/redis/dao/RedisOperations.java:203-213 | the same characterisation for the reply-decoding loop on any key list, proved by induction over the keys |
| Operations.BulkRoundTrip | simple-crud/src/main/java/com/gbmartins/redis/dao/RedisOperations.java:150-224 | after a bulk save, a bulk get of keys the batch wrote with values of one class returns exactly those values, in key order |
| Operations.DeleteCount | simple-crud/src/main/java/com/gbmartins/redis/dao/RedisOperations.java:233-239 | the count DEL reports is never more than the number of keys given |
| Operations.DeleteCountIsExisting | simple-crud/src/main/java/com/gbmartins/redis/dao/RedisOperations.java:233-239 | the count equals the number of distinct given keys that existed |
| Operations.DeleteAgainCountsZero | simple-crud/src/main/java/com/gbmartins/redis/dao/RedisOperations.java:233-239 | deleting the same keys a second time reports 0 |
| Operations.DeleteOne | simple-crud/src/main/java/com/gbmartins/redis/dao/RedisOperations.java:233-239 | deleting one key reports 1 if it existed and 0 otherwise |
| Operations.RedisOperations.constructor | simple-crud/src/main/java/com/gbmartins/redis/dao/RedisOperations.java:63-66 | the facade starts over the store's current contents |
| Operations.RedisOperations.SaveOrUpdateObject | simple-crud/src/main/java/com/gbmartins/redis/dao/RedisOperations.java:78-99 | SET acknowledges "OK"; the key is overwritten whatever it held; every other key is unchanged |
| Operations.RedisOperations.GetObject | simple-crud/src/main/java/com/gbmartins/redis/dao/RedisOperations.java:115-141 | returns what `Get` states for the current store and changes nothing |
| Operations.RedisOperations.SaveOrUpdateBulkObject | simple-crud/src/main/java/com/gbmartins/redis/dao/RedisOperations.java:150-179 | a null map raises RuntimeException before the store is touched; otherwise every entry is written, whatever the iteration order, keys outside the map are unchanged, and an empty map changes nothing |
| Operations.RedisOperations.GetListObject | simple-crud/src/main/java/com/gbmartins/redis/dao/RedisOperations.java:190-224 | the two loops (one reply per key, then decode the non-null replies in order) compute `GetList` of the current store |
| Operations.RedisOperations.DeleteKeys | simple-crud/src/main/java/com/gbmartins/redis/dao/RedisOperations.java:233-239 | every given key is removed, nothing else changes, and the count DEL reports is returned |
| Service.InsertOnly | simple-crud/src/main/java/com/gbmartins/redis/service/UserService.java:84-94 | writes the user under its e-mail only when nothing is stored there; if a user is stored, answers null and leaves the store unchanged; if something else is stored, raises the wrapped decoding error and leaves the store unchanged |
| Service.UpdateOnly | simple-crud/src/main/java/com/gbmartins/redis/service/UserService.java:104-114 | writes the user only when a user is already stored under its e-mail; if nothing is stored, answers null and leaves the store unchanged; if something else is stored, raises the wrapped decoding error |
| Service.InsertAndUpdateExclusive | simple-crud/src/main/java/com/gbmartins/redis/service/UserService.java:84-114 | for any store, at most one of insert-only and update-only writes |
| Service.FindUser | simple-crud/src/main/java/com/gbmartins/redis/service/UserService.java:188-195 | the user stored under the e-mail; null when nothing is stored; a wrapped failure, never null, when the payload is not a user |
| Service.ByEmail | simple-crud/src/main/java/com/gbmartins/redis/service/UserService.java:130-135 | the map's keys are exactly the users' e-mails, and each maps to one of the given users with that e-mail |
| Service.LastDuplicateWins | simple-crud/src/main/java/com/gbmartins/redis/service/UserService.java:130-135 | of several users with one e-mail, the map keeps the last in argument order |
| Service.SaveOrUpdateUsersKeepsLast | simple-crud/src/main/java/com/gbmartins/redis/service/UserService.java:123-147 | after the bulk write, each e-mail holds the last user given with it, and other keys are unchanged |
| Service.IndexByEmail | simple-crud/src/main/java/com/gbmartins/redis/service/UserService.java:130-134 | the `for` loop of `HashMap.put` calls builds exactly `ByEmail` |
| Service.UserService.constructor | simple-crud/src/main/java/com/gbmartins/redis/service/UserService.java:56-59 | the service works on the given facade |
| Service.UserService.SaveOrUpdateUser | simple-crud/src/main/java/com/gbmartins/redis/service/UserService.java:68-75 | unconditionally stores the user under its e-mail and answers "OK" |
| Service.UserService.SaveUser | simple-crud/src/main/java/com/gbmartins/redis/service/UserService.java:84-94 | the read-then-write pair has exactly the answer and store effect of `InsertOnly` |
| Service.UserService.UpdateUser | simple-crud/src/main/java/com/gbmartins/redis/service/UserService.java:104-114 | the read-then-write pair has exactly the answer and store effect of `UpdateOnly` |
| Service.UserService.SaveOrUpdateUsers | simple-crud/src/main/java/com/gbmartins/redis/service/UserService.java:123-147 | a null argument answers an empty list and writes nothing; otherwise answers null and bulk-writes the e-mail-to-user map |
| Service.UserService.DeleteUser | simple-crud/src/main/java/com/gbmartins/redis/service/UserService.java:156-163 | removes the e-mail's key and answers 1 if it existed and 0 otherwise, the count `deleteKeys` reports |
| Service.UserService.DeleteUsers | simple-crud/src/main/java/com/gbmartins/redis/service/UserService.java:172-179 | removes every given e-mail's key and answers exactly the count `deleteKeys` reports |
| Service.UserService.GetUserByEmail | simple-crud/src/main/java/com/gbmartins/redis/service/UserService.java:188-195 | answers `FindUser` of the current store and changes nothing |
| Service.UserService.GetUsersByEmails | simple-crud/src/main/java/com/gbmartins/redis/service/UserService.java:204-211 | no e-mails raises the facade's RuntimeException, wrapped; otherwise succeeds if and only if every present e-mail holds a user, and then answers those users in e-mail order, misses dropped; every failure is wrapped |
| InstanceSetup.RedisInstanceSetup.constructor | simple-crud/src/main/java/com/gbmartins/redis/dao/RedisInstanceSetup.java:79-84 | the fields hold the given host name, port and password, unvalidated |
| InstanceSetup.RedisInstanceSetup.GetHostname | simple-crud/src/main/java/com/gbmartins/redis/dao/RedisInstanceSetup.java:104-106 | returns the host name as configured, null included |
| InstanceSetup.RedisInstanceSetup.GetPort | simple-crud/src/main/java/com/gbmartins/redis/dao/RedisInstanceSetup.java:113-115 | returns the port as configured, unchecked |
| InstanceSetup.RedisInstanceSetup.GetPassword | simple-crud/src/main/java/com/gbmartins/redis/dao/RedisInstanceSetup.java:122-124 | returns the password as configured, null included |
| InstanceSetup.SetupRegistry.constructor | simple-crud/src/main/java/com/gbmartins/redis/dao/RedisInstanceSetup.java:42 | no instance exists before the first `createInstance` |
| InstanceSetup.SetupRegistry.CreateInstance | simple-crud/src/main/java/com/gbmartins/redis/dao/RedisInstanceSetup.java:55-67 | the first call allocates the instance; later calls overwrite the fields of that same object, so the last call wins; afterwards the getters return exactly the given host name, port and password, including null or empty ones; the instance is returned |
| InstanceSetup.SetupRegistry.GetInstance | simple-crud/src/main/java/com/gbmartins/redis/dao/RedisInstanceSetup.java:91-97 | raises RuntimeException exactly when no instance was ever created; otherwise returns the instance `createInstance` returned |
| InstanceSetup.Reconfigure | simple-crud/src/main/java/com/gbmartins/redis/dao/RedisInstanceSetup.java:55-97 | a second `createInstance` keeps the object identity: `getInstance` returns the earlier instance, now holding the new endpoint |
| JavaString.Pieces | simple-crud/src/main/java/com/gbmartins/redis/crud/Application.java:207 | the pieces of a string cut at every space contain no space, and there is at least one piece |
| JavaString.JoinPieces | simple-crud/src/main/java/com/gbmartins/redis/crud/Application.java:207 | joining the pieces with single spaces gives the string back |
| JavaString.PiecesJoin | simple-crud/src/main/java/com/gbmartins/redis/crud/Application.java:228 | cutting a join of space-free tokens gives the tokens back |
| JavaString.DropTrailingEmpty | simple-crud/src/main/java/com/gbmartins/redis/crud/Application.java:207 | removes exactly the trailing empty strings, keeps a prefix, and its last token is non-empty |
| JavaString.Split | simple-crud/src/main/java/com/gbmartins/redis/crud/Application.java:207 | `split(" ")`: a string without a space is its own only token; otherwise a prefix of the pieces with only empty pieces dropped from the end, so runs of spaces give inner empty tokens; no token contains a space |
| JavaString.SplitJoin | simple-crud/src/main/java/com/gbmartins/redis/crud/Application.java:228 | space-free tokens joined by single spaces split back into the same tokens, provided the last one is non-empty |
| JavaString.SplitIgnoresTrailingSpace | simple-crud/src/main/java/com/gbmartins/redis/crud/Application.java:228 | one trailing space does not change the tokens of a non-empty command |
| JavaString.SplitTailIgnoresFirstChar | simple-crud/src/main/java/com/gbmartins/redis/crud/Application.java:77 | changing a non-space first character changes only token 0 |
| Console.GetEmailFromStringCommand | simple-crud/src/main/java/com/gbmartins/redis/crud/Application.java:205-215 | a returned e-mail never contains a space |
| Console.EmailFromTokens | simple-crud/src/main/java/com/gbmartins/redis/crud/Application.java:205-215 | with 2 or more tokens, the e-mail is token 1 and extra tokens are ignored |
| Console.NoEmailFromOneToken | simple-crud/src/main/java/com/gbmartins/redis/crud/Application.java:208-210 | a single token gives null |
| Console.GetUserFromStringCommand | simple-crud/src/main/java/com/gbmartins/redis/crud/Application.java:224-239 | no field of a parsed user contains a space |
| Console.UserFromTokens | simple-crud/src/main/java/com/gbmartins/redis/crud/Application.java:224-239 | with 4 or more tokens, the user is e-mail token 1, first name token 2 and last name token 3, and extra tokens are ignored |
| Console.NoUserFromFewTokens | simple-crud/src/main/java/com/gbmartins/redis/crud/Application.java:228-231 | with fewer than 4 tokens the result is null |
| Console.Dispatch | simple-crud/src/main/java/com/gbmartins/redis/crud/Application.java:74-98 | an empty command throws at `substring(0, 1)`; the answer is Quit exactly for a first character of `Q` or `q`; a first letter outside C, R, U, D and Q (after upper-casing) is ignored |
| Console.DispatchIgnoresCase | simple-crud/src/main/java/com/gbmartins/redis/crud/Application.java:77 | a lower-case command letter selects the same call, with the same arguments, as its upper case |
| Console.DispatchFromTokens | simple-crud/src/main/java/com/gbmartins/redis/crud/Application.java:77-91 | for a command of space-free tokens whose first token starts with the letter: C makes the insert-only call with the user of tokens 1 to 3, U the update-only call with that user, R reads and D deletes the e-mail of token 1; with fewer than 4 tokens (C, U) or 2 tokens (R, D) the command makes no service call and only warns |
| Console.UpperCase | simple-crud/src/main/java/com/gbmartins/redis/crud/Application.java:77 | a lower-case ASCII letter becomes its capital, any other character is kept, and the result is never a lower-case letter |
| Console.Perform | simple-crud/src/main/java/com/gbmartins/redis/crud/Application.java:79-172 | `execute` answers false exactly for Quit and true for every other action that does not throw; C throws exactly when insert-only `saveUser` throws, with its exception, and otherwise changes the store as `saveUser` does; U likewise with update-only `updateUser`; R throws exactly when `getUserByEmail` throws, with its exception; D deletes the e-mail and never throws; R, warnings, unknown letters and Q leave the store unchanged; warnings and unknown letters never throw |
| Console.RunSession | simple-crud/src/main/java/com/gbmartins/redis/crud/Application.java:48-65 | the loop reads no more lines than there are, and every line before the last one read was neither empty nor `Q` |
| Console.SessionEndsAtQuitOrEmpty | simple-crud/src/main/java/com/gbmartins/redis/crud/Application.java:52-61 | no line after the first `Q` or empty command is read |
| Console.SessionStopsAtFirstStop | simple-crud/src/main/java/com/gbmartins/redis/crud/Application.java:52-61 | when every earlier line answered true, the loop reads exactly up to the first line on which `execute` does not answer true (an empty command, `Q`, or a service call that throws), and leaves the store that line left |
| Console.SessionEndsAtException | simple-crud/src/main/java/com/gbmartins/redis/crud/Application.java:56-60 | a line whose service call throws is the last line read, and its store effect is the last one |
| Console.SessionReadsAllWhenAllGoOn | simple-crud/src/main/java/com/gbmartins/redis/crud/Application.java:52-61 | when `execute` answers true on every line, the loop reads all lines, ends only when the input is exhausted, and leaves the store the last line left |
| Console.SessionPassesIgnoredLines | simple-crud/src/main/java/com/gbmartins/redis/crud/Application.java:52-61 | lines with an unknown letter or too few tokens never end the loop, and they leave the store unchanged |
| Console.Application.constructor | simple-crud/src/main/java/com/gbmartins/redis/crud/Application.java:36-37 | the application works on the given user service |
| Console.Application.Execute | simple-crud/src/main/java/com/gbmartins/redis/crud/Application.java:74-172 | the switch and the four command handlers have exactly the answer and store effect of `Perform` on `Dispatch` of the command; an empty command throws and changes nothing |
| Console.Application.Run | simple-crud/src/main/java/com/gbmartins/redis/crud/Application.java:48-65 | the `while (stay)` loop reads exactly the lines `RunSession` says and leaves the store it says |

## Left out

- The connection pool (`RedisPoolConnection`, `JedisPool`) and the try-with-resources release are not modelled. The pool's point is sharing connections between threads, and releasing a connection has no effect on the store's contents.
- Transport and I/O failures of the Redis connection are not modelled: every command reaches the store. Because of this, `SaveOrUpdateUser`, `SaveOrUpdateUsers`, `DeleteUser` and `DeleteUsers` never fail in the model. In the source, `saveOrUpdateUsers`, `deleteUser` and `deleteUsers` would wrap such a failure in RuntimeException, while `saveOrUpdateUser` wraps only an `IOException` and lets an unchecked one, such as a `JedisConnectionException`, escape unwrapped.
- Operations.RedisOperations.SaveOrUpdateObject and Operations.RedisOperations.SaveOrUpdateBulkObject: a save never fails at encoding. In the source, `serializeObject` throws `NotSerializableException` for a value with a non-serializable member; `saveOrUpdateObject` rethrows it (RedisOperations.java:82, 91-96), and the bulk save rethrows it from inside the entry loop, before `sync` (RedisOperations.java:165, 171-176). Every `Value` in the model is serializable.
- Pipelining (`pipelined`, `sync`, `syncAndReturnAll`) is modelled as sequential per-key commands on the map.
- The byte format of Java serialization is not modelled. A payload is either a serialized tagged value or unreadable. Class identity (tag equality) stands for `Class.isInstance`, so there is no subclassing.
- Saving a null object is not modelled: a Value is never null. In the source, such a payload reads back as null and then fails the instance check.
- `scriptLoad` is not modelled. The SHA-1 digest is computed by the Redis server.
- Null keys and null e-mails are not modelled: keys are always strings. In the source a null key gives NullPointerException; the service wraps it, except in `saveOrUpdateUser`, where it escapes unwrapped. A null varargs array is not modelled for `deleteKeys`, `deleteUsers` and `getUsersByEmails` either, where it also gives NullPointerException; `saveOrUpdateUsers(null)` is modelled and answers an empty list.
- Keys are compared as strings. The byte encoding of `String.getBytes()` is left out.
- Operations.RedisOperations.DeleteKeys and Service.UserService.DeleteUsers: a DEL with no keys is not modelled as a failure. Their contracts answer 0 for an empty list, where the Redis server rejects the command with an arity error.
- Logging and all console output are not modelled. This covers `printMenu`, `printMsg`, `printWarning` and the response texts. `RedisSetup`, the Spring configuration and the entry points are not part of this model either.
- The console is a finite sequence of lines. `System.console()` returning null is not modelled. The loop ends when the input is exhausted; in the source `readLine()` then returns null and `execute` throws, which ends the loop the same way.
- Console.UpperCase: upper-cases ASCII `a`-`z` only, not Unicode case mapping. `toUpperCase` of any other character is not one of the command letters C, R, U, D, Q.
- InstanceSetup.SetupRegistry: Java's static field becomes an explicit registry object, so "process-wide" means "one registry". Concurrent access to the singleton is not modelled.
