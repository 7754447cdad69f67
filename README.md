# User registry model

A Dafny model of the two classes of the `library` module: the immutable `User`
value object and the in-memory `UserService` registry that stores users in a
`Map<Long, User>`, seeds it with two users and gives each new user the id
`size() + 1`.

- `wrappers.dfy` — `Option` (a Java `null`) and `Result` (a thrown exception).
- `java_lang.dfy` — module `JavaLang`: the `long` range as the newtype `Long`,
  narrowing to `int`, `Long.hashCode` (written with an explicit bitwise
  exclusive or) and the decimal rendering of a `long`, with its parse round trip.
- `user.dfy` — module `Users`: the `User` datatype, the null-checking
  constructor `NewUser`, `Equals` over a small model of Java references,
  `HashCode`, `ToString` with the id readable back from its text, and the lemmas about them.
- `user_service.dfy` — module `UserServices`: the class `UserService` with its
  `users` map field, the registry invariant `DenseRegistry` (keys are exactly
  `1..n` and each user sits under its own id), and the methods `FindById`,
  `FindAll` and `CreateUser`.

The registry invariant is established by the constructor and kept by
`CreateUser`; `NextIdIsFresh` and `RegisteredIsDense` show that the id
`size() + 1` is never already a key, so creating a user never overwrites one.

## Model

| member | source | states |
|---|---|---|
| `Users.NewUser` | library/src/main/java/com/example/library/User.java:15-31 | succeeds exactly when id, email and name are all non-null; the getters `User.GetId`, `User.GetEmail` and `User.GetName` (User.java:21-31) of the result return the three arguments; otherwise fails with the message of the first null field, checked in the order id, email, name |
| `Users.Equals` | library/src/main/java/com/example/library/User.java:34-39 | true exactly when the other reference is a `User` (of that exact class) with the same id; null and other classes give false |
| `Users.EqualsIgnoresEmailAndName` | library/src/main/java/com/example/library/User.java:38 | equality of two users depends on their ids only; email and name can be replaced without changing it |
| `Users.EqualsReflexive` | library/src/main/java/com/example/library/User.java:35 | every user equals itself |
| `Users.EqualsNull` | library/src/main/java/com/example/library/User.java:36 | no user equals null |
| `Users.EqualsSymmetric` | library/src/main/java/com/example/library/User.java:38 | `u.equals(v)` and `v.equals(u)` agree |
| `Users.EqualsTransitive` | library/src/main/java/com/example/library/User.java:38 | equality is transitive |
| `Users.HashCode` | library/src/main/java/com/example/library/User.java:42-44 | the hash code is a 32-bit `int` |
| `Users.EqualsImpliesSameHash` | library/src/main/java/com/example/library/User.java:34-44 | equal users have equal hash codes |
| `Users.HashCodeOfSmallId` | library/src/main/java/com/example/library/User.java:42-44 | for ids 0 to 2^31 - 32 the hash code is `31 + id` |
| `Users.HashCodeCollision` | library/src/main/java/com/example/library/User.java:42-44 | the converse fails: users with ids 0 and -1 are not equal but both hash to 31 |
| `Users.ToString` | library/src/main/java/com/example/library/User.java:47-49 | the text starts with `User{id=`, ends with `'}`, and the id read back from it is the user's id, whatever the email and name contain |
| `JavaLang.LongHashCodeOfSmall` | library/src/main/java/com/example/library/User.java:43 | `Long.hashCode` of a long in `0 .. 2^31 - 1` is the value itself |
| `JavaLang.LongToStringRoundTrip` | library/src/main/java/com/example/library/User.java:48 | reading back the decimal rendering of the id gives the id |
| `UserServices.NextIdIsFresh` | library/src/main/java/com/example/library/UserService.java:49-51 | under the registry invariant the id `size() + 1` is not yet a key |
| `UserServices.RegisteredIsDense` | library/src/main/java/com/example/library/UserService.java:48-53 | storing the new user under `size() + 1` keeps the keys exactly `1..n` with every user under its own id, grows the map by one and keeps every earlier entry |
| `UserServices.UserService.constructor` | library/src/main/java/com/example/library/UserService.java:16-20 | the map holds exactly John Doe under 1 and Jane Doe under 2, and the registry invariant holds |
| `UserServices.UserService.FindById` | library/src/main/java/com/example/library/UserService.java:28-30 | returns the user stored under the id, or none when the id is absent; under the invariant it finds exactly the ids `1..size()`, each user carrying the id asked for; the map is not changed |
| `UserServices.UserService.FindAll` | library/src/main/java/com/example/library/UserService.java:37-39 | returns a new list as long as the map, holding only stored users and every stored user, one entry per key in some order of the keys (each key once); under the invariant no user appears twice; the map is not changed |
| `UserServices.UserService.CreateUser` | library/src/main/java/com/example/library/UserService.java:48-53 | with non-null email and name, returns `User(old size + 1, email, name)`, stores it under that id and grows the map by one, leaving every earlier entry as it was; a null email or name throws the constructor's exception and leaves the map unchanged; the registry invariant is kept |
| `UserServices.SeededServiceScenario` | library/src/main/java/com/example/library/UserService.java:16-53 | on a fresh service, id 1 finds John Doe, the first created user gets id 3 and is then found under 3, and id 4 finds nothing |

## Left out

- `UserServices.UserService.CreateUser`: requires fewer than `Integer.MAX_VALUE` stored users; the `int` overflow of `users.size() + 1` before the cast to `long` is not modelled, since no in-memory map reaches that size.
- `UserServices.UserService.FindById`: takes a non-null id; `findById(null)`, which `HashMap.get(null)` answers with null, is not modelled.
- `UserServices.UserService.FindAll`: the order of the list follows `HashMap` iteration, which is unspecified; the model takes the keys in an arbitrary order and states only length and contents.
- `Users.Equals`: the `this == o` shortcut is modelled as value equality of the two users; since equal references always have equal ids, the result is the same. An instance of a subclass of `User` is modelled as an object of another class, which is what `getClass()` makes of it.
- Java strings are modelled as sequences of characters; UTF-16 details play no part here.
- Thread safety: `HashMap` is not synchronised; concurrent use of `UserService` is not modelled.
- No comparison of API signatures between library and consumer is implemented in `User.java` or `UserService.java`, so none is modelled; the consumer application, the demonstration scripts, the build tooling and the dependency-graph front end are not part of this model.
