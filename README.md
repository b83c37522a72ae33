# SuperGenPass core in Dafny

This project models the derivation core of python-supergenpass
(`supergenpass/__init__.py`). It has four parts.

- **`_valid_pass`**, the password complexity regular expression. The model
  (`PasswordRules`) writes it as a left-to-right character scan. It proves the
  scan accepts exactly the written rules:
  - the first character is a lowercase letter;
  - every character is alphanumeric;
  - an uppercase letter and a digit both occur after the first position.

  It also proves the regex's two alternatives, read literally, mean the same.
- **`generate`**, the hash chain (`Generator`). The state starts as
  `master:domain`. Each round digests the UTF-8 bytes of the state. It then
  base 64 encodes the digest with `9` and `8` as the alternate characters
  (`Base64`), and turns every `=` into `A`. The loop stops at the first round,
  from the tenth on, whose `length`-character prefix passes `_valid_pass`, and
  returns that prefix. `Generate` is an imperative method whose `while` loop
  lives in `Stretch`; the loop body digests, encodes and replaces as the
  source does. Both are proved
  against `Round`, the state after `k` rounds, and `Accepts`, the loop's exit
  condition. The base 64 encoder has a decoder partner, and the round trip is
  proved.
- **`_ip_address`**, the dotted-quad matcher (`Domain`). It is a scan, proved
  equal to "four dot-separated fields of one to three digits".
- **`strip_domain`** (`Domain`). It lowercases the input, takes the network
  location of anything that looks like a URL, and returns addresses
  unchanged. It rejects names without a dot. Otherwise it keeps the last two
  labels, or the last three when the last two form a listed top-level domain.

Shared string operations live in `Text`: Python's `s[:n]`, ASCII `lower`,
one-character `replace`, `split`/`join` on one separator, the regex `$` rule,
and UTF-8 encoding.

Three things come from outside the core, so they are parameters:
- the digest function `hashlib.new(algorithm, data).digest()`, as
  `digest: seq<byte> -> seq<byte>`;
- `urllib.parse.urlparse(d).netloc`, as `netloc: string -> string`;
- the top-level-domain set loaded from `data/tldlist.json`, as
  `tlds: set<string>`.

Where the code and its documentation differ, the model follows the code:
- The comment at `supergenpass/__init__.py:43` gives passwords 4 to 24
  characters. The code does not check `length`, so neither does the model. `ShortLengthNeverAccepted` shows that a length of 0
  to 2 never ends the loop.
- An IPv4 literal is documented as exactly four fields. The code's `$`
  also lets one final newline through, and the model keeps that newline
  (`DropFinalNewline`).

## Model

| member | source | states |
|---|---|---|
| PasswordRules.ScanRestMeaning | supergenpass/__init__.py:45-49 | the scan after the first character succeeds iff every character is alphanumeric and an uppercase letter and a digit were seen, before or within the text |
| PasswordRules.ValidPass | supergenpass/__init__.py:44-50 | defines `_valid_pass.match(s)`: the character scan applied to `s` with one final newline set aside, as the closing `$` allows |
| PasswordRules.ScanMeansRules | supergenpass/__init__.py:37-50 | the character scan accepts a string iff it meets the complexity rules: lowercase first, alphanumeric throughout, an uppercase letter and a digit after position 0 |
| PasswordRules.AlternativesMeanRules | supergenpass/__init__.py:47-48 | the two regex alternatives (uppercase then digit, digit then uppercase) together hold iff both kinds occur after position 0, in either order |
| PasswordRules.ValidPassMeansRules | supergenpass/__init__.py:44-50 | `_valid_pass.match(s)` holds iff the rules hold of `s` without one final newline, and equally iff the literal alternatives hold |
| PasswordRules.ValidAlnumMeansRules | supergenpass/__init__.py:44-50 | on alphanumeric text the match is exactly the rules |
| PasswordRules.ValidPassLength | supergenpass/__init__.py:44-50 | nothing shorter than three characters, apart from a final newline, is accepted |
| Text.Head | supergenpass/__init__.py:67 | `s[:n]` is a prefix of `s`, of length the smaller of `n` and the length of `s` for `n >= 0`, and counts from the end for negative `n` |
| Text.AlnumHasNoFinalNewline | supergenpass/__init__.py:49 | the `$` newline rule leaves alphanumeric text unchanged |
| Text.DropFinalNewline | supergenpass/__init__.py:49 | the text the closing `$` must reach: the input itself, or the input without its one final newline, which is then always removed |
| Text.ReplaceAt | supergenpass/__init__.py:70 | `replace('=', 'A')` changes every `=`, and nothing else, into `A` |
| Text.Replace | supergenpass/__init__.py:70 | `replace` keeps the length of the text |
| Text.Lower | supergenpass/__init__.py:87 | `domain.lower()` keeps the length of the text; each character is lowered on its own |
| Text.LowerIdempotent | supergenpass/__init__.py:87 | lowering twice is lowering once |
| Text.LowerKeepsNonLetters | supergenpass/__init__.py:87-88 | lowering neither adds nor removes `/`, `:` or any other non-letter, so the URL test can be read on the raw input |
| Text.Split | supergenpass/__init__.py:92 | `split('.')` yields at least one part, and no part holds the separator |
| Text.JoinSplit | supergenpass/__init__.py:92-98 | joining the parts of a split gives back the string |
| Text.SplitJoin | supergenpass/__init__.py:95-98 | splitting a join of separator-free parts gives back the parts |
| Text.SplitPrefix | supergenpass/__init__.py:92 | a separator-free prefix becomes the start of the first part |
| Text.SplitCount | supergenpass/__init__.py:92-94 | a string splits into two or more parts iff it holds the separator |
| Text.SplitSize | supergenpass/__init__.py:92 | a string has one part more than it has separators |
| Text.Join | supergenpass/__init__.py:95-98 | defines `'.'.join(parts)`: the parts in order with one separator between neighbours |
| Text.JoinSuffix | supergenpass/__init__.py:96-98 | the joined last labels are a suffix of the joined whole |
| Text.SplitDigitsOnly | supergenpass/__init__.py:81 | if every part is digits, every character is a digit or the separator |
| Text.EncodeChar | supergenpass/__init__.py:68 | UTF-8 gives one to four octets per character, and one exactly for ASCII |
| Text.Utf8 | supergenpass/__init__.py:68 | `encode('utf-8')` has between one and four octets per character |
| Text.Utf8Ascii | supergenpass/__init__.py:68 | on ASCII text UTF-8 is the sequence of code points |
| Base64.LetterValue | supergenpass/__init__.py:69 | each 6-bit value has an alphabet character that decodes back to it |
| Base64.Encode | supergenpass/__init__.py:69 | base 64 text has 4 * ceil(n / 3) characters for n octets |
| Base64.EncodeByGroups | supergenpass/__init__.py:69 | the group-by-group statement of the encoding has the same length, a multiple of four |
| Base64.EncodeIsGroupwise | supergenpass/__init__.py:69 | the character-by-character and group-by-group statements of the encoding agree on every input |
| Base64.EncodeAfterFirstGroup | supergenpass/__init__.py:69 | after a full first group the text continues as the text of the remaining octets |
| Base64.CharAtAfterFirstGroup | supergenpass/__init__.py:69 | character `i + 4` of the text is character `i` of the text after the first three octets |
| Base64.EncodeFirstGroup | supergenpass/__init__.py:69 | the first four characters come from the first three octets |
| Base64.EncodeShortIsGroupwise | supergenpass/__init__.py:69 | a final group of one or two octets is encoded the same way by both statements, with `=` padding |
| Base64.EncodeSingle | supergenpass/__init__.py:69 | one octet gives two characters and two `=` |
| Base64.EncodePair | supergenpass/__init__.py:69 | two octets give three characters and one `=` |
| Base64.EncodeAlphabet | supergenpass/__init__.py:69 | base 64 text holds only alphabet characters and `=` |
| Base64.CharAtAlphabet | supergenpass/__init__.py:69 | each character of the text is an alphabet character or `=` |
| Base64.OctetsOfGroup | supergenpass/__init__.py:69 | the four 6-bit values of a group carry its three octets |
| Base64.DecodePadded | supergenpass/__init__.py:69 | a padded final group decodes to the octets before the padding |
| Base64.DecodeGroup | supergenpass/__init__.py:69 | an unpadded leading group decodes to its octets ahead of the rest |
| Base64.DecodeLetters | supergenpass/__init__.py:69 | four alphabet characters in front decode to the octets their values carry |
| Base64.DecodeFullGroup | supergenpass/__init__.py:69 | a full group decodes to its three octets ahead of the rest |
| Base64.DecodeFirstGroup | supergenpass/__init__.py:69 | the text of three or more octets decodes to the first three ahead of what the rest decodes to |
| Base64.DecodeEncodeOne | supergenpass/__init__.py:69 | a final single octet decodes back |
| Base64.DecodeEncodeTwo | supergenpass/__init__.py:69 | a final pair of octets decodes back |
| Base64.DecodeEncodeByGroups | supergenpass/__init__.py:69 | decoding the group-by-group text gives back every octet |
| Base64.DecodeEncode | supergenpass/__init__.py:69 | `b64encode` loses nothing: decoding gives back every octet |
| Base64.TranslateAt | supergenpass/__init__.py:69 | the alternate characters turn each `+` into `9` and each `/` into `8`, and leave every other character alone |
| Base64.AltChar | supergenpass/__init__.py:69 | the alternate characters `b'98'` never leave a `+` or `/` behind, and turn a standard alphabet character into an alphanumeric one |
| Base64.Translate | supergenpass/__init__.py:69 | the translation keeps the length of the text |
| Base64.EncodeAlt | supergenpass/__init__.py:69 | `b64encode(b, b'98')` has the length of the standard text |
| Base64.SpecialEncode | supergenpass/__init__.py:69-70 | the text of one round is entirely `[a-zA-Z0-9]`, with 4 * ceil(n / 3) characters for an n-octet digest |
| Base64.SpecialEncodeAgrees | supergenpass/__init__.py:69-70 | the round's text equals standard base 64 except that `+`, `/` and `=` become `9`, `8` and `A` |
| Base64.AltCharsCollide | supergenpass/__init__.py:69 | the substitution is not one-to-one: octets 248 and 244 both give `9AAA` |
| Base64.PaddingCollides | supergenpass/__init__.py:70 | `=` to `A` is not one-to-one: one zero octet and three zero octets both give `AAAA` |
| Base64.ZeroGroup | supergenpass/__init__.py:69 | three zero octets encode as `AAAA` |
| Generator.Step | supergenpass/__init__.py:68-70 | one round yields alphanumeric text of 4 * ceil(n / 3) characters for an n-octet digest |
| Generator.Seed | supergenpass/__init__.py:65 | defines the initial state `master + ":" + domain` |
| Generator.Round | supergenpass/__init__.py:65-71 | defines the state after `k` passes of the loop body: the seed for `k = 0`, one more step otherwise |
| Generator.Continues | supergenpass/__init__.py:67 | defines the loop condition: fewer than ten rounds, or a `length`-prefix that `_valid_pass` rejects |
| Generator.Accepts | supergenpass/__init__.py:67 | defines an accepting round: one at which the loop condition is false for the state after that many rounds |
| Generator.Stretch | supergenpass/__init__.py:65-71 | the loop, started at `master:domain`, ends holding exactly the state after the first accepting round, given that round as a ghost bound |
| Generator.Generate | supergenpass/__init__.py:53-72 | `generate` runs at least ten rounds and stops at the first accepting round; it returns that round's `length`-prefix, which passes `_valid_pass` and, for `length >= 0`, has the smaller of `length` and the state's length as its length |
| Generator.FirstAccepting | supergenpass/__init__.py:67 | if some round accepts, a first accepting round exists |
| Generator.AcceptedPassword | supergenpass/__init__.py:67-72 | the prefix of an accepting round meets the complexity rules and is never the seed `master:domain` |
| Generator.RoundIsAlnum | supergenpass/__init__.py:68-71 | every state after the first round is alphanumeric |
| Generator.StateLength | supergenpass/__init__.py:68-70 | a fixed-size n-octet digest gives states of 4 * ceil(n / 3) characters |
| Generator.Md5StateLength | supergenpass/__init__.py:68-72 | a 16-octet digest gives 24-character states, so the result has `min(length, 24)` characters |
| Generator.StateBytes | supergenpass/__init__.py:68 | from the first round on, `password.encode('utf-8')` is the code points of the state, one octet per character |
| Generator.ShortLengthNeverAccepted | supergenpass/__init__.py:67 | for `0 <= length < 3` no round accepts, so `generate` does not return |
| Domain.ScanQuadMeaning | supergenpass/__init__.py:81 | the dotted-quad scan, from any point, accepts iff the remaining dot-separated parts complete four fields of one to three digits |
| Domain.IpAddressMeansDottedQuad | supergenpass/__init__.py:81 | `_ip_address.match(s)` holds iff `s`, without one final newline, is four dot-separated fields of one to three digits, with no range check |
| Domain.ScanQuad | supergenpass/__init__.py:81 | defines `[0-9]{1,3}(?:\.[0-9]{1,3}){3}` as a left-to-right scan counting dots and the digits of the current field |
| Domain.IpAddressMatch | supergenpass/__init__.py:81 | defines `_ip_address.match(s)`: the scan on `s` with one final newline set aside |
| Domain.Host | supergenpass/__init__.py:87-89 | input without `/` or `:` is reduced to its lowercase form |
| Domain.StripDomain | supergenpass/__init__.py:84-98 | returns `None` iff the host is no address and holds no dot; returns an address host unchanged; any result is a suffix of the host |
| Domain.StripDomainLabels | supergenpass/__init__.py:92-98 | for a name, the result is a suffix of the host made of its last three labels when there are three or more and the last two are a listed top-level domain, and otherwise of its last two labels |
| Domain.LastLabelsOfHost | supergenpass/__init__.py:95-98 | the last `k` labels, joined, end the host and split back into exactly those labels |
| Domain.StripDomainIgnoresCase | supergenpass/__init__.py:87 | lowercasing the input beforehand changes no result |
| Domain.FewLabelsNoAddress | supergenpass/__init__.py:81 | a name of two or three labels never matches the address pattern |
| Domain.AddressIsPlain | supergenpass/__init__.py:81 | a matched address holds only digits, dots and at most a final newline, so it is lowercase and holds no `/` or `:` |
| Domain.StripDomainAddressIdempotent | supergenpass/__init__.py:87-91 | stripping an address result again returns it unchanged, with no further condition |
| Domain.StripPlainName | supergenpass/__init__.py:87-98 | a lowercase name of two or three labels without `/` or `:` is stripped to itself when it has three labels whose last two are listed, and otherwise to its last two labels |
| Domain.StripDomainNameIdempotent | supergenpass/__init__.py:87-98 | stripping a name result again returns it unchanged, when it is lowercase and holds no `/` or `:` |
| Domain.StripDomainIdempotent | supergenpass/__init__.py:87-98 | stripping any result again returns it unchanged, when it is lowercase and holds no `/` or `:`; every address result is such a result |

## Left out

- The digest `hashlib.new(algorithm, ...)` is a parameter. The `ValueError` for an unknown algorithm is not modelled; every digest function the caller passes is accepted. Neither is the `TypeError` that `.digest()` raises without a length for the extendable-output algorithms `shake_128` and `shake_256`, which the command line accepts as algorithm names.
- Text.Utf8 and Generator.Generate: `password.encode('utf-8')` raises `UnicodeEncodeError` on a lone surrogate, which Python strings can hold (for example command-line bytes that are not valid UTF-8, decoded with `surrogateescape`, reaching `generate` as the domain or salt). A Dafny `char` is always a Unicode scalar value, so the model's strings cannot hold a surrogate, `Utf8` is total and `Generate` never fails on its input.
- Generator.Generate: termination is a precondition (some round accepts), because the source loop has no bound. The model proves correctness whenever the source returns, not that it returns.
- Generator.Generate: the complexity rules themselves are stated by `Generator.AcceptedPassword` about the same round; `Generate` itself states `_valid_pass` of its result.
- `urllib.parse.urlparse(d).netloc` is an arbitrary total function. Port and `user@` handling are its business and are not modelled. Its error path is not modelled either: `urlparse` raises `ValueError` on an unbalanced `[` or `]` in the network location (for example `http://[x`), and neither caller catches it, so such an input makes `strip_domain` raise, whereas Domain.StripDomain always returns a host-derived result or `None`.
- Loading `data/tldlist.json` at import time is file I/O. The set is a parameter.
- Text.Lower: `str.lower` is modelled on ASCII letters only. Other letters are left unchanged, so non-ASCII host names are not lowered as Python would lower them.
- Domain.StripDomainIdempotent and Domain.StripDomainNameIdempotent require a name result to be lowercase and free of `/` and `:`. A network location keeps a `:port`, and stripping that again goes through `netloc` again. In the source a network location is part of the already-lowered input (`supergenpass/__init__.py:87-89`), so it is lowercase; the model's `netloc` is an arbitrary function that carries no such fact, which is the only reason for the lowercase condition. Address results need no condition (Domain.StripDomainAddressIdempotent).
- `base64.b64encode(...).decode('ascii')` is folded into the encoder, which yields characters directly.
- The default arguments `length=10` and `algorithm='md5'` of `generate` are not modelled: `Generator.Generate` always takes both, as both callers in the repository pass them explicitly.
- `generate_pin`, the HOTP primitive and the PIN quality filter are not part of this model.
- The GTK interface (`supergenpass/gtkui.py`), the command line (`supergenpass/__main__.py`) and `setup.py` are not part of this model.
