# Link shortener core, modelled in Dafny

This project models the core of a URL shortener service (Java, Spring). The
service maps a long URL to a short key, stores the mapping, resolves a short
key back to its URL, and counts redirects. The model covers:

- key generation: the salted `String.hashCode`, `Math.abs` on an int, base-62
  encoding over `A–Z a–z 0–9`, right-padding with `'0'`, the ten-attempt
  collision loop and the final truncation to the requested length;
- the link lifecycle in `ShorterService`: create with validation and reuse of
  an existing link for the same URL, lookup, and lookup that counts a click;
- the `LinkEntity` record and the `ShorterRepository` queries, over a store
  that is a sequence of rows;
- the constraints of `CreateLinkRequest`, and the redirect step of
  `PageController` that adds a scheme.

The service operations are pure functions. The create and click operations
take the store before the call and return the store after it; the read-only
lookup takes the store and returns no store. The loops of the source (the
probe loop, the base-62 digit loop, the hash loop) are also written as methods
proved equal to the functions. Thrown exceptions become `ServiceError` values.

Files, one module each:

| file | module | models |
|---|---|---|
| wrappers.dfy | Wrappers | Optional and exceptions as `Option` / `Result` |
| java_lang.dfy | JavaLang | int wrap-around, `Math.abs(int)`, `String.hashCode`, `startsWith`, `Integer.toString`, `StringBuilder.reverse` |
| base62.dfy | Base62 | `ALPHABET`, `encodeAlphabetBase` and its inverse |
| link_entity.dfy | Entity | `LinkEntity`, `LinkDto` |
| repository.dfy | Repository | `ShorterRepository` over a sequence of rows |
| key_generation.dfy | KeyGen | salt, hash, padding, the retry loop |
| shorter_service.dfy | ShorterService | create, get, get-and-increment |
| create_link_request.dfy | CreateLinkRequest | the request constraints |
| page_controller.dfy | PageController | scheme normalisation and the redirect outcome |

Points where the model follows the code:

- **Checked key vs stored key.** The existence check runs on the padded but
  untruncated key. Truncation to `len` comes after the loop. A non-negative int
  encodes to at most 6 characters (`Base62.EncodedIntLength`). So for `len` ≥ 6
  the checked key is the stored key (`ShorterService.CreateStoresCheckedKeyWhenLong`).
  For shorter `len`, the stored prefix was never checked and can duplicate an
  existing key (`ShorterService.CreateShortLenMayDuplicateKey`).
- **Keys are not unique.** Neither column is declared unique. After ten
  collisions the last key is stored anyway (`ShorterService.CreateAfterTenCollisionsDuplicatesKey`).
  A derived single-result finder that matches several rows fails. The model
  returns `Lookup.NonUnique` there, which the service reports as
  `IncorrectResultSize` and the redirect answers with 400.
- **`Math.abs` on an int.** `Integer.MIN_VALUE` stays negative. It encodes to
  `""`, and the key becomes all `'0'` (`KeyGen.MinHashGivesZeroKey`).
- **`"0"` is not the zero digit.** The zero digit is `'A'`. Zero is written
  `"0"`, the digit 52, so 0 and 52 share an encoding (`Base62.ZeroSharesEncodingWith52`).
- **Negative `len`.** `substring(0, len)` throws after the probe loop. This is
  `StringIndexOutOfBounds`, and nothing is saved.

## Model

| member | source | states |
|---|---|---|
| JavaLang.Wrap32 | src/main/java/ru/mws/link_shorter/service/ShorterService.java:61 | Java int arithmetic: the result lies in the int range and is congruent to the exact value modulo 2^32 |
| JavaLang.AbsInt | src/main/java/ru/mws/link_shorter/service/ShorterService.java:61 | `Math.abs(int)`: the magnitude for every int except INT_MIN, which stays INT_MIN |
| JavaLang.HashCode | src/main/java/ru/mws/link_shorter/service/ShorterService.java:61 | `hashCode` of any string is an int (each Horner step wraps); its value is fixed by JavaLang.HashCodeIsPolynomial |
| JavaLang.HashCodeIsPolynomial | src/main/java/ru/mws/link_shorter/service/ShorterService.java:61 | the Horner-form `hashCode` equals the defining polynomial s[0]·31^(n−1)+…+s[n−1], reduced to an int |
| JavaLang.ComputeHashCode | src/main/java/ru/mws/link_shorter/service/ShorterService.java:61 | the accumulating hash loop yields an int equal to the reduced polynomial |
| JavaLang.DecimalStringRoundTrip | src/main/java/ru/mws/link_shorter/service/ShorterService.java:60 | `"" + attempts` writes the decimal digits of the number, which read back as it, with no leading zero |
| JavaLang.StartsWith | src/main/java/ru/mws/link_shorter/controller/PageController.java:38 | true exactly when the string is the prefix followed by some (possibly empty) rest |
| Base62.AlphabetAt | src/main/java/ru/mws/link_shorter/service/ShorterService.java:20 | ALPHABET has 62 characters, and the character at index d is the digit character of value d |
| Base62.AlphabetMembership | src/main/java/ru/mws/link_shorter/service/ShorterService.java:20 | a character occurs in ALPHABET exactly when it is an upper-case letter, a lower-case letter or a decimal digit |
| Base62.Digits | src/main/java/ru/mws/link_shorter/service/ShorterService.java:104-108 | the digit loop produces only ALPHABET characters and, for a positive number, a non-empty string not starting with 'A' |
| Base62.EncodeAlphabetBase | src/main/java/ru/mws/link_shorter/service/ShorterService.java:100-109 | 0 gives "0", a negative number gives "", a positive one gives a non-empty ALPHABET string whose first digit is not 'A' |
| Base62.DecodeEncode | src/main/java/ru/mws/link_shorter/service/ShorterService.java:104-108 | the digits recombine to the number: decode(digits(n)) = n |
| Base62.EncodeRoundTrip | src/main/java/ru/mws/link_shorter/service/ShorterService.java:100-109 | a positive number's encoding reads back as that number |
| Base62.EncodeDecode | src/main/java/ru/mws/link_shorter/service/ShorterService.java:104-108 | every ALPHABET string without a leading 'A' is the encoding of the positive number it denotes |
| Base62.EncodeInjective | src/main/java/ru/mws/link_shorter/service/ShorterService.java:100-109 | distinct positive numbers have distinct encodings |
| Base62.ZeroSharesEncodingWith52 | src/main/java/ru/mws/link_shorter/service/ShorterService.java:101 | 0 and 52 both encode to "0", and "0" denotes 52 |
| Base62.DigitsLength | src/main/java/ru/mws/link_shorter/service/ShorterService.java:104-107 | n has at most k digits exactly when n < 62^k |
| Base62.EncodedIntLength | src/main/java/ru/mws/link_shorter/service/ShorterService.java:61-62 | a non-negative int encodes to at most 6 characters, and INT_MAX to exactly 6 |
| Base62.EncodeLoop | src/main/java/ru/mws/link_shorter/service/ShorterService.java:100-109 | the append-divide-reverse loop computes the encoding |
| Entity.NewLinkEntity | src/main/java/ru/mws/link_shorter/entity/LinkEntity.java:27-30 | the constructor stores the key and URL it is given, and the count starts at 0 |
| Repository.FoundIdIsKey | src/main/java/ru/mws/link_shorter/entity/LinkEntity.java:42-44 | getId of a row that findByShortKey returns is the key it was looked up by, and the stored row at the reported position has that id |
| Entity.SetShortKey | src/main/java/ru/mws/link_shorter/entity/LinkEntity.java:50-52 | sets the key and leaves URL and count untouched |
| Entity.SetOriginalUrl | src/main/java/ru/mws/link_shorter/entity/LinkEntity.java:58-60 | sets the URL and leaves key and count untouched |
| Entity.SetClickCount | src/main/java/ru/mws/link_shorter/entity/LinkEntity.java:66-68 | sets the count and leaves key and URL untouched |
| Repository.MatchingRows | src/main/java/ru/mws/link_shorter/repository/ShorterRepository.java:9-11 | lists, in increasing order, exactly the rows whose column holds the value |
| Repository.FindBy | src/main/java/ru/mws/link_shorter/repository/ShorterRepository.java:9-11 | a single-result finder: empty exactly when no row matches, the one matching row when exactly one does, a failure exactly when two rows match |
| Repository.ExistsByShortKey | src/main/java/ru/mws/link_shorter/repository/ShorterRepository.java:13 | true exactly when some row holds the key, duplicates included |
| Repository.ExistsIffFindNotEmpty | src/main/java/ru/mws/link_shorter/repository/ShorterRepository.java:9-13 | existsByShortKey is true exactly when findByShortKey does not come back empty, so the probe loop and the lookups agree on presence |
| Repository.SaveNew | src/main/java/ru/mws/link_shorter/service/ShorterService.java:76 | saving a new entity appends it as the last row and keeps every earlier row |
| Repository.SaveAt | src/main/java/ru/mws/link_shorter/service/ShorterService.java:91 | saving a loaded entity overwrites its row and no other |
| Repository.FindNeverSaved | src/main/java/ru/mws/link_shorter/repository/ShorterRepository.java:9 | a key no row holds is found empty, and its exists check is false |
| Repository.FindAfterSave | src/main/java/ru/mws/link_shorter/repository/ShorterRepository.java:9 | after saving an entity under an absent key, findByShortKey of that key returns that entity |
| Repository.FindByUrlAfterSave | src/main/java/ru/mws/link_shorter/repository/ShorterRepository.java:11 | after saving an entity for a URL no row holds, findByOriginalUrl returns it |
| Repository.SaveDuplicateKey | src/main/java/ru/mws/link_shorter/entity/LinkEntity.java:16-17 | the key column is not unique: a second row with a present key can be saved, and the key finder then fails |
| Repository.SaveNewKeepsUniqueUrls | src/main/java/ru/mws/link_shorter/service/ShorterService.java:51-76 | appending a row for a URL no row holds keeps one row per URL |
| Repository.SaveAtKeepsUniqueUrls | src/main/java/ru/mws/link_shorter/service/ShorterService.java:90-91 | overwriting a row without changing its URL keeps one row per URL |
| KeyGen.Salt | src/main/java/ru/mws/link_shorter/service/ShorterService.java:60 | the salt is empty on attempt 0, and otherwise '_' followed by the decimal digits of the attempt, without a leading zero |
| KeyGen.AttemptHash | src/main/java/ru/mws/link_shorter/service/ShorterService.java:61 | the value passed to encodeAlphabetBase is either INT_MIN or a non-negative int |
| KeyGen.PadKey | src/main/java/ru/mws/link_shorter/service/ShorterService.java:63-65 | the padded key starts with the input, has length max(len, input length), and every added character is '0' |
| KeyGen.Candidate | src/main/java/ru/mws/link_shorter/service/ShorterService.java:60-65 | the key an attempt checks begins with the base-62 encoding of its salted hash and has at least len characters |
| KeyGen.ChooseAttempt | src/main/java/ru/mws/link_shorter/service/ShorterService.java:59-68 | the stopping attempt is below 10, every earlier key was taken, and its own key is free unless it is the tenth |
| KeyGen.StoppingAttempt | src/main/java/ru/mws/link_shorter/service/ShorterService.java:59-68 | the attempt the loop stops at for a URL and len: below 10, every earlier attempt's key was taken, and its own key is free unless it is the tenth |
| KeyGen.ProbeKeys | src/main/java/ru/mws/link_shorter/service/ShorterService.java:57-68 | the do-while loop makes 1 to 10 existence checks and stops at the first free key, or after the tenth check |
| KeyGen.GenerateCheckedKey | src/main/java/ru/mws/link_shorter/service/ShorterService.java:57-68 | on the salted-hash keys the loop ends with a key free in the store, or after ten attempts whose keys were all taken |
| KeyGen.CandidateShape | src/main/java/ru/mws/link_shorter/service/ShorterService.java:62-65 | an attempt's key is the encoding followed by '0's, at least len long, all from ALPHABET |
| KeyGen.TruncatedCandidateShape | src/main/java/ru/mws/link_shorter/service/ShorterService.java:69 | for len ≥ 0 the stored key has exactly len characters, all from ALPHABET |
| KeyGen.CandidateIsTruncatedCandidateWhenLong | src/main/java/ru/mws/link_shorter/service/ShorterService.java:68-69 | for len ≥ 6 the checked key already has length len, so truncation keeps it whole |
| KeyGen.TruncationDropsCheckedCharacters | src/main/java/ru/mws/link_shorter/service/ShorterService.java:68-69 | when the encoding is longer than len, the stored key is strictly shorter than the key whose existence was checked |
| KeyGen.MinHashGivesZeroKey | src/main/java/ru/mws/link_shorter/service/ShorterService.java:61-65 | a salted hash of INT_MIN yields a key of len '0' characters |
| ShorterService.LinkIsValid | src/main/java/ru/mws/link_shorter/service/ShorterService.java:96-98 | a URL is valid exactly when it is longer than 4 characters and splits as some text, a '.', and some text |
| ShorterService.CreateShortLinkWithLen | src/main/java/ru/mws/link_shorter/service/ShorterService.java:39-80 | LinkLengthOverflow exactly when the URL is over 128 characters; LinkIsInvalid exactly when it is within 128 characters and not valid (no '.' or at most 4 characters); failures leave the store as it was; a store change only happens when no row held the URL, and it appends one row with count 0 that the result mirrors |
| ShorterService.GetOriginalLinkByShortKey | src/main/java/ru/mws/link_shorter/service/ShorterService.java:27-36 | LinkNotFound exactly when no row holds the key; success exactly when one row does, returning its fields |
| ShorterService.GetIncrementedOriginalLinkByShortKey | src/main/java/ru/mws/link_shorter/service/ShorterService.java:83-94 | LinkNotFound exactly when the key is absent, with no save; on success only that row changes, its count one higher, and the result carries the new count |
| ShorterService.CreateReusesExisting | src/main/java/ru/mws/link_shorter/service/ShorterService.java:51-55 | a URL held by exactly one row gets that row's key, URL and count back for any len, whatever other URLs are duplicated, and nothing is saved |
| ShorterService.CreateFresh | src/main/java/ru/mws/link_shorter/service/ShorterService.java:57-79 | a fresh create appends exactly one row: the URL, the stopping attempt's key cut to len (len characters from ALPHABET), count 0; it returns those three values |
| ShorterService.CreateNegativeLenFails | src/main/java/ru/mws/link_shorter/service/ShorterService.java:69 | a negative len fails at substring, and nothing is saved |
| ShorterService.CreateIdempotent | src/main/java/ru/mws/link_shorter/service/ShorterService.java:39-80 | a valid URL with len ≥ 0 on a store holding at most one row for it is created successfully; creating it again, with any len, returns the same link and leaves the store as it was |
| ShorterService.CreatePreservesUniqueUrls | src/main/java/ru/mws/link_shorter/service/ShorterService.java:51-76 | sequential creates keep one row per URL |
| ShorterService.CreateSucceedsOnConsistentStore | src/main/java/ru/mws/link_shorter/service/ShorterService.java:39-80 | with one row per URL, a URL that passes validation and a len ≥ 0 always succeed |
| ShorterService.CreateStoresCheckedKeyWhenLong | src/main/java/ru/mws/link_shorter/service/ShorterService.java:68-69 | for len ≥ 6 the stored key is the checked key, and if the loop stopped before its tenth attempt that key was free in the store |
| ShorterService.CreateAfterTenCollisionsDuplicatesKey | src/main/java/ru/mws/link_shorter/service/ShorterService.java:68-76 | after ten collisions the tenth key is stored anyway, and for len ≥ 6 two rows then hold it |
| ShorterService.CreateShortLenMayDuplicateKey | src/main/java/ru/mws/link_shorter/service/ShorterService.java:68-69 | for len shorter than the encoding, a row holding the unchecked prefix gets a second row with the same key |
| ShorterService.IncrementAddsOne | src/main/java/ru/mws/link_shorter/service/ShorterService.java:90-93 | a click adds exactly 1 to the count of the row holding the key, and leaves key, URL and every other row unchanged |
| ShorterService.IncrementMonotone | src/main/java/ru/mws/link_shorter/service/ShorterService.java:90-91 | a click never lowers any count and never changes a key or URL |
| ShorterService.GetAfterIncrement | src/main/java/ru/mws/link_shorter/service/ShorterService.java:27-36 | a lookup after a click reports the count the click returned |
| ShorterService.ClickTimesCounts | src/main/java/ru/mws/link_shorter/service/ShorterService.java:83-94 | n sequential clicks raise the count by exactly n |
| ShorterService.TwoClicksOnFreshLink | src/main/java/ru/mws/link_shorter/service/ShorterService.java:75-94 | a row saved for a new link under a key no other row holds reads back with count 0, and two clicks on it return 1 and then 2 |
| ShorterService.IncrementPreservesUniqueUrls | src/main/java/ru/mws/link_shorter/service/ShorterService.java:90-91 | clicks keep one row per URL |
| CreateLinkRequest.Violations | src/main/java/ru/mws/link_shorter/request/CreateLinkRequest.java:6-12 | blank or absent url, url over 128, absent len, len below 3, len above 12: each is reported exactly when it holds |
| CreateLinkRequest.ValidRequestBounds | src/main/java/ru/mws/link_shorter/request/CreateLinkRequest.java:6-12 | a request is accepted exactly when url is present, non-blank and at most 128 long, and len is present and in [3, 12] |
| CreateLinkRequest.ValidRequestCreate | src/main/java/ru/mws/link_shorter/request/CreateLinkRequest.java:7-12 | through an accepted request create never fails with LinkLengthOverflow or at substring, and a new key has exactly len characters |
| PageController.NormalizeScheme | src/main/java/ru/mws/link_shorter/controller/PageController.java:38-40 | the result always starts with http:// or https://; a URL with either prefix is kept; any other gets https:// in front |
| PageController.NormalizeUnchangedIff | src/main/java/ru/mws/link_shorter/controller/PageController.java:38-40 | the URL is kept exactly when it already starts with http:// or https:// |
| PageController.NormalizeIdempotent | src/main/java/ru/mws/link_shorter/controller/PageController.java:38-40 | normalising twice equals normalising once |
| PageController.NormalizeIsCaseSensitive | src/main/java/ru/mws/link_shorter/controller/PageController.java:38 | "HTTP://x" is prefixed again; "example.com" becomes "https://example.com"; "https://example.com" is kept |
| PageController.RedirectTo | src/main/java/ru/mws/link_shorter/controller/PageController.java:35-53 | 404 exactly when the key is absent; a redirect exactly when one row holds it, to that row's normalised URL, after its count went up by one; no store change otherwise |

## Left out

- Concurrency. Two creates for the same new URL can both miss the URL check,
  and two clicks can lose an update. Every operation is modelled as one
  sequential step.
- `@Transactional`, flushing, and the generated numeric id. A row is
  identified by its position in the store.
- Logging. It has no effect on behaviour.
- Store faults other than a finder matching several rows: connectivity,
  constraint violations. Nothing in the model raises them.
- ShorterController, CustomErrorController and OpenApiConfig. These map
  results to HTTP status codes and messages, and hold documentation metadata.
- The Bean Validation and Jackson machinery. Only the constraint predicate is
  modelled.
- `PageController.RedirectTo`: `URI.create` is treated as always succeeding.
  A URL it rejects would answer 400 after the click was counted.
- `ShorterService.GetIncrementedOriginalLinkByShortKey`: does not model the
  Java int overflow of `clickCount` at 2^31−1. The count is an unbounded
  natural number.
- `JavaLang.HashCode`: one Dafny `char` is one UTF-16 unit. Characters outside
  the Basic Multilingual Plane count as two units in Java and are not modelled
  as such. The 128-character limit and the `len` of `@Size` are counted the
  same way.
- The home-page endpoint of PageController. It only names a view.
