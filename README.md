# liblastfm user value layer in Dafny

A model of the value part of liblastfm's `src/User.h`, which is in namespace `lastfm`:

- `Gender` classifies a one-letter code. The constructor lower-cases the code. `male()` and
  `female()` compare it with `"m"` and `"f"`, `known()` is their disjunction, and `toString()`
  renders `"m"`, `"f"` or `"n"` ("as in neuter").
- `User` is a profile object with mutable fields. Its inline members are the name constructor
  (which sets the match score to the "not set" value `-1`), `operator==` and `operator<`, which
  look at the name only, `toString()` and `operator QString()`, which both give the name, and the
  `name`/`setName` and `type`/`setType` accessor pairs.

Files:

- `qstring.dfy` (module `QStrings`) holds the part of Qt's `QString` that the header relies on.
  A string is a sequence of UTF-16 code units (`QChar`, a 16-bit newtype). Dafny's `char` is not
  used because it is a Unicode scalar value, and `QString::operator<` compares code units.
  `ToLower` is `QString::toLower` restricted to ASCII. `Less` is the code-unit lexicographic
  order. The module proves that `Less` is a strict total order and that it matches the
  "proper prefix or first differing unit" description.
- `user.dfy` (module `LastFm`) holds `Gender` as a datatype and `User` as a class. A subset type
  on `Gender`'s code keeps the invariant that the stored code is lower-case. In the source the
  code is private and only the constructors set it.

`User::Type` (src/User.h:66-73) is the datatype `UserType`, with the same five values.
`QObject::tr` is taken to be the identity. `User`'s `float` match score is a `real`, because the
code only tests its sign. The `quint32` scrobble count and the `unsigned short` age are
bounded newtypes.

## Model

| member | source | states |
|---|---|---|
| `LastFm.Gender.Unset` | src/User.h:39 | the default gender has an empty code, is not known and renders as "n" |
| `LastFm.Gender.FromCode` | src/User.h:41-46 | the constructor lower-cases its argument: the result is male exactly for "m"/"M", female exactly for "f"/"F", known exactly for those four codes, and a lower-case code is stored unchanged |
| `LastFm.Gender.ToString` | src/User.h:48-60 | the label is "m" exactly when male, "f" exactly when female, and "n" exactly when not known |
| `LastFm.Gender.Known` | src/User.h:44 | `known()` holds exactly when one of `male()` and `female()` holds |
| `LastFm.Gender.Male` | src/User.h:45 | `male()` holds only for the one-letter code "m", never for the female code |
| `LastFm.Gender.Female` | src/User.h:46 | `female()` holds only for the one-letter code "f", never for the male code |
| `LastFm.GenderExclusive` | src/User.h:44-46 | male and female are never both true, and known means exactly one of them holds |
| `LastFm.GenderRenderRoundTrip` | src/User.h:41-60 | a gender built from another gender's label classifies and renders the same way |
| `LastFm.GenderUpperCaseCodes` | src/User.h:41-46 | `Gender("M")` is male, and `Gender("F")` is female and renders as "f" |
| `LastFm.GenderFromOwnCode` | src/User.h:41-42 | lower-casing a stored code again changes nothing, so rebuilding a gender from its own code gives it back |
| `LastFm.User.constructor` | src/User.h:79-80 | `User(name)` holds that name, `toString()` gives it, the match score is negative ("not set"), the default-constructed real name, country and image list are empty and the gender is unknown; type, flags, age and scrobble count are left unconstrained |
| `LastFm.User.SetName` | src/User.h:90-91 | `setName(n)` makes the name (and `toString()`) `n` and changes no other field |
| `LastFm.User.SetType` | src/User.h:93-94 | `setType(t)` makes the type `t` and changes no other field |
| `LastFm.User.ToString` | src/User.h:88-90 | `operator QString()` and `name()` give the user's name, and so does `toString()` (line 145), which returns `name()` |
| `LastFm.User.Eq` | src/User.h:85 | `operator==` compares names; users it calls equal are less than each other in neither direction |
| `LastFm.User.Less` | src/User.h:86 | `operator<` compares names with the QString order; when it holds, the reverse comparison does not |
| `LastFm.EqIsNameEquality` | src/User.h:85 | `operator==` holds exactly when the names (the `toString()` values) are equal, whatever the other fields; it is reflexive and symmetric |
| `LastFm.UserLessIrreflexive` | src/User.h:86 | no user is less than itself |
| `LastFm.UserLessTransitive` | src/User.h:86 | `operator<` is transitive |
| `LastFm.UserEqIffNeitherLess` | src/User.h:85-86 | two users are equal exactly when neither is less than the other; two unequal users are ordered exactly one way |
| `QStrings.ToLower` | src/User.h:41 | lower-casing keeps the length, turns each code unit into its lower-case form (`A`-`Z` to `a`-`z`, every other unit kept), leaves no upper-case ASCII letter, and leaves a lower-case string unchanged |
| `QStrings.ToLowerIdempotent` | src/User.h:41 | lower-casing twice is the same as lower-casing once |
| `QStrings.ToLowerIsSingleLetter` | src/User.h:41-46 | under ASCII lower-casing, the only codes that lower-case to a one-letter code `a`-`z` are that letter and its upper-case form; `FromCode` uses it for "m" and "f" |
| `QStrings.Less` | src/User.h:86 | the QString order used by `operator<`: a proper prefix is always less than the longer string, and a string is never less than one of its proper prefixes |
| `QStrings.LessIffPrefixOrFirstDifference` | src/User.h:86 | the name order holds exactly when the first name is a proper prefix of the second, or the first differing code unit is smaller |
| `QStrings.LessIrreflexive` | src/User.h:86 | no string is less than itself |
| `QStrings.LessAsymmetric` | src/User.h:86 | if a is less than b then b is not less than a |
| `QStrings.LessTransitive` | src/User.h:86 | the string order is transitive |
| `QStrings.LessTotal` | src/User.h:86 | any two different strings are ordered one way or the other |

## Left out

- The request builders `getTopTags`, `getFriends`, `getFriendsListeningNow`, `getNeighbours`, `getPlaylists`, `getTopArtists`, `getRecentTracks`, `getRecentArtists`, `getRecentStations`, `getRecommendedArtists` and `getInfo` (src/User.h:122-138), and `list` (src/User.h:143). They send HTTP requests through the web-service layer, which is not part of this model.
- `User(const XmlQuery&)` (src/User.h:82) and `toDomElement` (src/User.h:146): they are XML parsing and serialisation.
- `operator=`, `setIsSubscriber`, `setCanBootstrap`, `setScrobbleCount`, `setDateRegistered`, `setRealName`, `imageUrl`, `setImages`, `setAge`, `setGender`, `setCountry`, `getInfoString`, `www` and `params` are only declared in the header. Their definitions are in source files that are not part of this model. Their fields are kept in the `User` class so that `SetName` and `SetType` can say they leave them unchanged.
- The default `User()` constructor (src/User.h:76): it reads the global `lastfm::ws::Username`, which is outside state.
- The registration date (`QDateTime m_registered`) is not modelled. No inline code reads or writes it, except its getter.
- The plain getters (`type()`, `isSubscriber()`, `canBootstrap()`, `scrobbleCount()`, `dateRegistered()`, `gender()`, `country()`, `realName()`, `match()`) are not separate members. The class's fields are read directly.
- `UserList` (src/User.h:173-180) is a list of users plus four pagination integers. It has no code, so it is not modelled.
- `QStrings.ToLower`: only ASCII `A`-`Z` are lower-cased. Qt's full Unicode case mapping is not modelled. In Unicode, only `M` and `F` lower-case to `m` and `f`, so `Gender`'s classification is the same under the full mapping. `QStrings.ToLowerIsSingleLetter` does not hold of the full mapping for every letter: U+212A KELVIN SIGN lower-cases to `k`.
- `QObject::tr` translation is taken as the identity. Float rounding of the match score is not modelled.
