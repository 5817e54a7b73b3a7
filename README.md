# Greeting selection of the message sender

This project models `MessageSenderImpl.send` of the message-localization exercise.
Given the request headers, `send` reads the `x-real-ip` header, asks the geo service
for the location of that IP and returns the localization service's greeting for the
location's country. Whenever the IP is unusable, the geo service finds no location, or
the location has no country, it returns the greeting for `Country.USA`.

Files:

- `wrappers.dfy`: `Option`, standing for a Java reference that may be null.
- `entity.dfy`: the `Country` enumeration (RUSSIA, USA, GERMANY, BRAZIL) and the
  `Location` record (city, country and street may be missing; building 0 means none).
- `message_sender.dfy`: the `x-real-ip` header name, `Send` and the lemmas about it.

The two collaborators are function parameters: `byIp: GeoLookup` (`GeoService.byIp`, with
`None` for a null location) and `locale: Localizer` (`LocalizationService.locale`). Their
behaviour is left open, so every property holds for every geo service and every
localization service.

Java's `String.valueOf(headers.get("x-real-ip"))` turns a missing header into the
four-character text `"null"`. The model does the same in `HeaderText`. So a missing
header and a header whose value is `"null"` are one case, and the Java `ipAddress != null`
test is always true and drops out of the guard (`IsUsableIp`: non-empty and not `"null"`).

`GreetingCountry` is a second definition of the same decision. It is written as a chain
of optional steps: the lookup key (`LookupKey`), then the location, then its country,
with USA wherever a step yields nothing. `Send` keeps the nested guards of the Java method,
and its postcondition ties it to `GreetingCountry`.

## Model

| member | source | states |
|---|---|---|
| MessageSender.LookupKey | Task1_MessageService/src/main/java/ru/netology/sender/MessageSenderImpl.java:23-25 | the geo service is consulted exactly when the `x-real-ip` header is present with a value that is neither empty nor `"null"`, and then with that value unchanged; the header is read through `HeaderText` (a missing key reads as `"null"`, line 23) and the guard is `IsUsableIp` (line 25) |
| MessageSender.Send | Task1_MessageService/src/main/java/ru/netology/sender/MessageSenderImpl.java:22-35 | the greeting is always `locale` of the country chosen by the optional chain header value, then location, then country, with USA as the fallback |
| MessageSender.MissingHeaderGreetsUsa | Task1_MessageService/src/main/java/ru/netology/sender/MessageSenderImpl.java:23-34 | without the header the greeting is `locale(USA)` for every geo service, so the lookup plays no part |
| MessageSender.EmptyIpGreetsUsa | Task1_MessageService/src/main/java/ru/netology/sender/MessageSenderImpl.java:25-34 | an empty header value gives `locale(USA)` for every geo service |
| MessageSender.NullTextIsMissingHeader | Task1_MessageService/src/main/java/ru/netology/sender/MessageSenderImpl.java:23-25 | a header holding the text `"null"` gives the same greeting as a missing header, namely `locale(USA)` |
| MessageSender.UnusedLookupIsIrrelevant | Task1_MessageService/src/main/java/ru/netology/sender/MessageSenderImpl.java:25-26 | when the guard rejects the IP, no answer of the geo service can change the greeting |
| MessageSender.UnknownIpGreetsUsa | Task1_MessageService/src/main/java/ru/netology/sender/MessageSenderImpl.java:26-34 | a usable IP for which the geo service returns no location gives `locale(USA)` |
| MessageSender.CountrylessLocationGreetsUsa | Task1_MessageService/src/main/java/ru/netology/sender/MessageSenderImpl.java:28-34 | a usable IP resolved to a location without a country (such as localhost) gives `locale(USA)` |
| MessageSender.ResolvedCountryGreets | Task1_MessageService/src/main/java/ru/netology/sender/MessageSenderImpl.java:26-30 | a usable IP resolved to a location in country c gives exactly `locale(c)` |
| MessageSender.LookupSeesOnlyHeaderValue | Task1_MessageService/src/main/java/ru/netology/sender/MessageSenderImpl.java:23-26 | for a usable IP, only the geo service's answer for exactly the header value matters |
| MessageSender.DistinctIpsAreDistinguished | Task1_MessageService/src/main/java/ru/netology/sender/MessageSenderImpl.java:23-26 | the header value reaches the geo service unmodified: two different usable values can always yield different greetings, so nothing is trimmed and no prefix is taken |
| MessageSender.EveryCountryReachable | Task1_MessageService/src/main/java/ru/netology/sender/MessageSenderImpl.java:26-30 | for a usable IP, the greeting of every country can be produced, depending only on the geo service's answer |
| MessageSender.GreetingIsResolvedOrUsa | Task1_MessageService/src/main/java/ru/netology/sender/MessageSenderImpl.java:22-35 | the result is always `locale` of some country: of the resolved country, or of USA; `send` yields no other text and never fails for a non-null headers map |
| MessageSender.OtherHeadersIgnored | Task1_MessageService/src/main/java/ru/netology/sender/MessageSenderImpl.java:22-23 | headers other than `x-real-ip` never change the greeting |
| MessageSender.BehaviourDeterminedByLookupKey | Task1_MessageService/src/main/java/ru/netology/sender/MessageSenderImpl.java:22-35 | two header maps give the same greeting under every geo and localization service if and only if they yield the same lookup key: missing, empty and `"null"` form one case, and every usable value is a case of its own |

## Left out

- The console message printed before the localized greeting is returned (Task1_MessageService/src/main/java/ru/netology/sender/MessageSenderImpl.java:29). It is output only and does not affect the result. The second `locale` call it causes makes no difference, because `locale` is a pure function here.
- The constructor and the injection of the two services (Task1_MessageService/src/main/java/ru/netology/sender/MessageSenderImpl.java:17-20). The services are parameters of `Send` instead.
- `GeoServiceImpl` (its IP and prefix tables) and `LocalizationServiceImpl` (its greeting table) are not part of this model. `send` reaches them only through the injected `GeoService` and `LocalizationService` interfaces, so `byIp` and `locale` stay arbitrary functions and every lemma holds for every geo and localization service.
- `MedicalServiceImpl` (the blood-pressure and temperature checks and their alert message) is not part of this model. It belongs to a separate exercise that `send` never touches.
- A null `headers` map is not modelled: `send(null)` throws a NullPointerException at the lookup on line 23, while a Dafny `map` is never null. A Java entry `x-real-ip` mapped to null is not representable either; `String.valueOf` reads it as `"null"`, so it behaves like a missing key, which is the case the model covers.
- Concurrency, mutation of the headers map during the call, and exceptions a collaborator might throw are not modelled. The Java method does not handle any of them.
