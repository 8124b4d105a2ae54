# Verified model of the server's parsers, tokens and CRUD interface

This project models four parts of the web server and proves what they promise:

* **JSON text** (`Json`, `JsonGrammar`, `JsonParser`, `JsonPrinter`, `JsonLaws`, `JsonSyntax`, `JsonLayout`, `Utf8`,
  `UnicodeLaws`, `Decimal`). The recursive parser over its buffer with one character of undo, and the serializer with its
  two layouts, are methods over the same state as in the original. The parser is proved against a recursive grammar, the
  serializer against a text function, and grammar and text function against each other: parsing undoes printing.
  `JsonSyntax` is the grammar of RFC 8259 as trees of characters, and the parser takes exactly its texts; `JsonLayout`
  says which of these texts the serializer writes.
* **base64 and tokens** (`Base64`, `Base64Laws`, `Base64Text`, `Token`, `TokenLaws`, `Verifier`, `VerifierLaws`). The bit
  arithmetic of `encode` and `decode` for any alphabet with any fill, and on top of it the token that is built, signed,
  split, decoded and verified.
* **Configuration files** (`ConfigLexer`, `ConfigGrammar`, `ConfigLaws`, `ConfigText`, `ConfigLayout`, `ConfigLines`,
  `ConfigEnd`, `ConfigParser`). The tokenizer over a stream, the parser that grows a tree of objects through a stack of
  pointers into it, and the printer. The parser is proved against a machine on values, the machine against a grammar, and
  the tokenizer against the layouts it takes.
* **The CRUD interface** (`Api`, `ApiHandler`, `ApiLaws`, `ApiSafety`, `ApiStore`, `ApiScan`, `ApiUsers`, `Paths`,
  `Routing`). Requests change a tree of files and an index of ids; the handler works on both as shared objects. Proved are the
  agreement of the two over whole runs, exactly when it is lost and exactly when a new item replaces an old one, the
  refinement of a plain store, the scan at the start, the separation of private users, and the choice of a handler.

`ByteStrings` holds byte strings, `std::string::find` and the option and result types. `dafny verify dfyconfig.toml` checks
everything.

## How to read it

A method is proved against a function that says what it computes; the files named `...Laws`, and the lemmas beside the
functions, say what that function means. A thrown exception is the `Err` of a result. Where the original would run into
undefined behaviour (the top of an empty stack, the end of a map, an overflowing id), the function has an outcome
`Undefined`, the method requires that it does not occur, and a lemma says exactly when it does.

Bit operations are written as multiplication, division and remainder by powers of two; no number in them reaches 2^24.
Times are real numbers of seconds.

## Where the code differs from what one would expect

* Objects do not use up the depth budget of the JSON parser: only enclosing arrays count (picojson.h:1013-1028). The
  condition in `JsonLaws.Fits` says so.
* Text behind a JSON value is ignored (picojson.h:1104-1120), so a part of a token may go on behind its object.
* The configuration parser never looks at its stack: blocks left open are accepted, one closing brace too many takes the
  root off the stack and is accepted at the end of the file, and a word or another closing brace behind it uses an empty
  stack (config_parser.cc:233-269). A last word without a delimiter is dropped (config_parser.cc:203-209), and a carriage return
  belongs to a plain word (config_parser.cc:193-194). `ConfigLaws.AcceptedExactly` and `ConfigLaws.UndefinedExactly` say
  exactly which tokens are accepted and which run into an empty stack, `ConfigEnd.LosesWordExactly` which texts lose their
  last word, and `ConfigEnd.CarriageReturnSticks` what becomes of a carriage return.
* The list of an entity without items is `]` (request_handler.cc:273-284).
* A name that `stoi` reads as a number is taken for an id even if it is not the printed form of that number, and even if it
  is the name of an entity. Two promises fail for such targets, and each has its exact condition:
  - index and files agree on all ids: `ApiLaws.AnsweredExact` says after which requests they still do, and
    `ApiLaws.CleanExactly` which targets are never harmful;
  - a new item never replaces one: `ApiSafety.ReplacesAfterExactly` says after which request it does, and
    `ApiSafety.CanReplaceExactly` which targets can bring that about, those with a positive id that is not in canonical
    form (a negative one disturbs the agreement, but no new item gets it). `GET /Shoes/01` is such a request, and
    `ApiSafety.NonCanonicalIdLosesAnItem` shows the item 1 of `Shoes` being lost.

## Model

| member | source | states |
|---|---|---|
| Base64.AlphabetsAreWellFormed | jwt-cpp/include/jwt-cpp/base.h:26-56 | Both alphabets have 64 different letters and a fill that does not start with one of them; base64url contains no dot. |
| Base64Text.AlphabetsLiterally | jwt-cpp/include/jwt-cpp/base.h:26-56 | The 64 letters in their order, and the two fills, character by character. |
| Base64.Encode | jwt-cpp/include/jwt-cpp/base.h:82-129 | The loop over triples and the tail return exactly the letters and fills of section 4 of RFC 4648, for every byte string. |
| Base64.EncodeTail | jwt-cpp/include/jwt-cpp/base.h:104-126 | One or two octets left over are padded with zero bits and two or one fills. |
| Base64.GetSextet | jwt-cpp/include/jwt-cpp/base.h:151-156 | Searching the alphabet gives the code of the letter, or the error exactly for a character that is no letter. |
| Base64.CountFill | jwt-cpp/include/jwt-cpp/base.h:135-143 | The shrinking loop strips fills from the end while something is left in front of them, and gives up at the third. |
| Base64.DecodeGroup | jwt-cpp/include/jwt-cpp/base.h:158-170 | One round of the loop decodes four letters into three octets, or reports a character that is no letter. |
| Base64.DecodeTail | jwt-cpp/include/jwt-cpp/base.h:172-184 | The switch over the fill count decodes the two or three letters left over, or reports one that is no letter. |
| Base64.Decode | jwt-cpp/include/jwt-cpp/base.h:131-187 | Which of the three errors is thrown, or which octets are returned, for every string; no index is out of range. |
| Base64.Pad | jwt-cpp/include/jwt-cpp/base.h:189-199 | The falling-through switch appends as many fills as are missing to a multiple of four. |
| Base64Laws.StripCountsFills | jwt-cpp/include/jwt-cpp/base.h:135-143 | Behind a body of letters any number of fills, of any length, is counted exactly, and a third is an error. |
| Base64Laws.DecodeAcceptsShapes | jwt-cpp/include/jwt-cpp/base.h:131-187 | `decode` succeeds if and only if the string is letters followed by 0, 1 or 2 fills, and their number is 0, 3 or 2 modulo 4. |
| Base64Laws.ShapeDecodes | jwt-cpp/include/jwt-cpp/base.h:131-187 | On such a string `decode` returns floor(3n/4) octets for n letters: those its letters stand for. |
| Base64Laws.DecodeEncode | jwt-cpp/include/jwt-cpp/base.h:82-187 | `decode(encode(x)) == x` for every byte string and both alphabets, whatever the remainder and the length of the fill. |
| Base64Text.EncodedByPosition | jwt-cpp/include/jwt-cpp/base.h:82-103 | Octets 3g to 3g+2 make a number of 24 bits, and letters 4g to 4g+3 are those its four digits to the base 64 choose (section 4 of RFC 4648). |
| Base64Text.EncodedEnds | jwt-cpp/include/jwt-cpp/base.h:104-126 | One octet at the end gives two letters and two fills, two give three letters and one fill, padded with zero bits; otherwise nothing more comes. |
| Base64Text.DecodedByPosition | jwt-cpp/include/jwt-cpp/base.h:156-170 | Letters 4g to 4g+3 stand for octets 3g to 3g+2: those of the number their positions in the alphabet make. |
| Base64Text.DecodedEnds | jwt-cpp/include/jwt-cpp/base.h:172-184 | Two letters at the end stand for one octet and three for two, and the bits left over are dropped. |
| Base64Text.DecodedExactly | jwt-cpp/include/jwt-cpp/base.h:131-187 | For a text that is something without a fill at its end and up to three fills: the third fill, the total size and a character that is no letter are refused in this order, and otherwise its letters are decoded. |
| Base64Text.FormExists | jwt-cpp/include/jwt-cpp/base.h:135-143 | Every text is of that form. |
| Base64Text.PaddedLiterally | jwt-cpp/include/jwt-cpp/base.h:189-199 | Behind a length of 1, 2 or 3 modulo 4 come three fills, two or one. |
| Base64Laws.EncodeDecode | jwt-cpp/include/jwt-cpp/base.h:82-187 | `encode(decode(s)) == s` if and only if the bits that belong to no octet are zero (section 3.5 of RFC 4648). |
| Base64Laws.LettersEncodeBack | jwt-cpp/include/jwt-cpp/base.h:82-187 | The same for the letters without the fills, by groups of four. |
| Base64Laws.PadTrimEncode | jwt-cpp/include/jwt-cpp/base.h:189-204 | `pad(trim(encode(x))) == encode(x)`, and what is trimmed off are exactly the fills. |
| Base64Laws.TrimPad | jwt-cpp/include/jwt-cpp/base.h:189-204 | `trim(pad(b)) == b` for every body of letters; the padded body decodes if its length is not 1 modulo 4. |
| Base64Laws.OneLetterTooMany | jwt-cpp/include/jwt-cpp/base.h:135-143 | A padded body whose length is 1 modulo 4 is rejected for too much fill. |
| Decimal.ScanIntText | jwt-cpp/include/picojson/picojson.h:487-492 | Scanning the printed form of an integer gives the integer and stops right behind it. |
| Decimal.StoiOfText | src/request_handler.cc:404-405 | `stoi(to_string(i)) == i` for every `int`, whatever text without a digit in front follows. |
| Decimal.IntTextExactly | jwt-cpp/include/picojson/picojson.h:487-492 | The printed form of a number that is not negative is the only numeral with its value and no zero in front; that of a negative one has a minus sign in front of its opposite's. |
| Decimal.ValueByPosition | src/request_handler.cc:404-405 | A digit at the end of a numeral adds its position in `0123456789` to ten times the number. |
| Decimal.StoiReads | src/request_handler.cc:404-405 | White space, an optional sign and digits are read as the number they make if it is an `int`, whatever follows; otherwise the conversion throws. |
| Decimal.StoiFails | src/request_handler.cc:404-405 | Without a digit behind white space and sign, the conversion throws. |
| JsonParser.Input.constructor | jwt-cpp/include/picojson/picojson.h:659-660 | A fresh buffer is a cursor at the start of the text. |
| JsonParser.Input.Getc | jwt-cpp/include/picojson/picojson.h:661-674 | The lazy buffer refines an index: it returns the next character and moves past the one before, counting line breaks; at the end it returns -1. |
| JsonParser.Input.Ungetc | jwt-cpp/include/picojson/picojson.h:675-677 | Takes back exactly the last character read. |
| JsonParser.Input.Cur | jwt-cpp/include/picojson/picojson.h:678-685 | Gives the position behind the last character read and not taken back. |
| JsonParser.Input.SkipWs | jwt-cpp/include/picojson/picojson.h:689-697 | Skips exactly the white space at the cursor. |
| JsonParser.Input.ExpectChar | jwt-cpp/include/picojson/picojson.h:698-705 | Skips white space and takes the expected character if it is there; otherwise the cursor stays in front of what is there. |
| JsonParser.Input.Match | jwt-cpp/include/picojson/picojson.h:706-714 | Succeeds exactly if the text at the cursor starts with the pattern, and takes it; in no case does the cursor end in front of its start. |
| JsonParser.ParseQuadHex | jwt-cpp/include/picojson/picojson.h:717-736 | Takes four hexadecimal digits of either case and gives the number they denote, or -1; the cursor never ends in front of its start. |
| JsonParser.ParseSecondHalf | jwt-cpp/include/picojson/picojson.h:748-758 | A high surrogate must be followed by the escape of a low one; together they give the supplementary character. The cursor never ends in front of its start. |
| JsonParser.ParseCodePoint | jwt-cpp/include/picojson/picojson.h:738-777 | Appends the UTF-8 form of the character an escape denotes, or fails for a lone surrogate; the cursor never ends in front of its start. |
| JsonParser.PushUtf8 | jwt-cpp/include/picojson/picojson.h:760-775 | The shifts and masks append the UTF-8 form of section 3 of RFC 3629. |
| JsonParser.ParseString | jwt-cpp/include/picojson/picojson.h:779-818 | Reads up to the closing quote, undoing the escapes, and refuses control characters and unknown escapes; the cursor never ends in front of its start. |
| JsonParser.ParseNumber | jwt-cpp/include/picojson/picojson.h:856-874 | Collects the longest run of number characters. |
| JsonParser.ParseInteger | jwt-cpp/include/picojson/picojson.h:898-915 | A number is an integer if `strtoimax` takes all of its text and it fits into 64 bits. |
| JsonParser.ParseArrayInto | jwt-cpp/include/picojson/picojson.h:820-835 | The loop over the elements builds the array the grammar gives, and on success leaves the depth budget as it was; on success and on failure the cursor does not end in front of its start. |
| JsonParser.ParseObjectInto | jwt-cpp/include/picojson/picojson.h:837-854 | The loop over the members builds the map the grammar gives, later members replacing earlier ones; on success and on failure the cursor does not end in front of its start. |
| JsonParser.Parse | jwt-cpp/include/picojson/picojson.h:876-928 | The recursive parser, its cursor and its context agree with the grammar for every text and depth budget; whatever the outcome, the cursor does not end in front of where it was; it terminates, the text left to read being its measure. |
| JsonParser.ParseText | jwt-cpp/include/picojson/picojson.h:1104-1131 | The public entry gives the grammar's value, with a depth budget of 100, and the position behind it, and ignores what follows. |
| JsonGrammar.ParseValue | jwt-cpp/include/picojson/picojson.h:876-928 | A value that is parsed takes at least one character of the text. |
| JsonGrammar.SkipTwice | jwt-cpp/include/picojson/picojson.h:689-697 | Skipping white space is idempotent. |
| JsonSyntax.CharsRead | jwt-cpp/include/picojson/picojson.h:779-818 | Every sequence of plain characters, one-letter escapes and spelled escapes is read as its bytes. |
| JsonSyntax.NumeralReads | jwt-cpp/include/picojson/picojson.h:898-915 | Digits with or without a minus sign, in the range of 64 bits and with no number character behind them, are read as their value. |
| JsonSyntax.NumberIsCut | jwt-cpp/include/picojson/picojson.h:898-915 | Where a number starts, parsing does not fail; the model stops exactly if that is no integer of 64 bits. |
| JsonSyntax.NodeReads | jwt-cpp/include/picojson/picojson.h:876-928 | Every text of the concrete grammar of RFC 8259, with integers for numbers and any white space between its tokens, is read as what it means, of members with the same key the last one, if its arrays are not nested too deeply. |
| JsonSyntax.ParsedExactly | jwt-cpp/include/picojson/picojson.h:876-928 | A value is parsed from a text, and stopped behind, if and only if the text is white space, a text of that grammar that means the value and is not nested too deeply, and the rest. |
| JsonPrinter.SerializeStr | jwt-cpp/include/picojson/picojson.h:529-564 | Appends the quoted form of a byte string, each byte escaped as the switch says. |
| JsonPrinter.Indent | jwt-cpp/include/picojson/picojson.h:574-579 | Appends a line break and two spaces a level. |
| JsonPrinter.Serialize | jwt-cpp/include/picojson/picojson.h:581-645 | Appends the text of a value at an indentation, compact or pretty, and at level 0 a line break. |
| JsonPrinter.SerializeArray | jwt-cpp/include/picojson/picojson.h:590-608 | The loop over the elements with its separators, line breaks and brackets appends the text of the array. |
| JsonPrinter.SerializeObject | jwt-cpp/include/picojson/picojson.h:609-636 | The loop over the members in the order of their keys appends the text of the object. |
| JsonPrinter.SortedKeysAscend | jwt-cpp/include/picojson/picojson.h:614-627 | The members come in strictly ascending order of their keys. |
| JsonPrinter.SerializeText | jwt-cpp/include/picojson/picojson.h:566-572 | `serialize` returns the compact or the pretty text. |
| JsonLayout.CharIsPrinted | jwt-cpp/include/picojson/picojson.h:529-564 | How each byte is written: eight characters with one letter behind a backslash, the other control characters and 0x7f with four lower-case digits, all others as they are; and that is a text for that byte. |
| JsonLayout.LessIsPrecedes | jwt-cpp/include/picojson/picojson.h:614-627 | Keys are compared at the first place where they differ. |
| JsonLayout.TextIsLaid | jwt-cpp/include/picojson/picojson.h:581-645 | A printed value is a text of the grammar that means the value, with canonical numerals and characters, members in ascending order, and as white space nothing, or line breaks with two blanks a level and a blank behind each colon. |
| JsonLayout.SerializedIsLaid | jwt-cpp/include/picojson/picojson.h:566-644 | So is the whole serialized text; the pretty one has a line break at its end. |
| JsonLaws.QuotedReads | jwt-cpp/include/picojson/picojson.h:529-564 | Reading a quoted byte string gives the byte string, for every sequence of bytes, and stops behind the closing quote. |
| JsonLaws.IntReads | jwt-cpp/include/picojson/picojson.h:487-492 | Reading the text of a 64-bit integer gives it, if no number character follows. |
| JsonLaws.ValueReads | jwt-cpp/include/picojson/picojson.h:581-928 | Parsing the text of a value at any indentation, followed by any allowed suffix, gives the value and stops right behind its text; it fails exactly if some array or object has as many arrays around it as the budget allows. |
| JsonLaws.ParsedFits | jwt-cpp/include/picojson/picojson.h:966-1028 | What was parsed within a depth budget has no array or object with as many arrays around it. |
| JsonLaws.ParsePrintParse | jwt-cpp/include/picojson/picojson.h:581-928 | Printing any value that was parsed, at any indentation, and parsing that gives the same value. |
| JsonLaws.SerializedInjective | jwt-cpp/include/picojson/picojson.h:566-644 | The text of a value, compact or pretty, determines the value. |
| UnicodeLaws.EscapesDenote | jwt-cpp/include/picojson/picojson.h:738-759 | An escape or pair of escapes is accepted as a character if and only if its digits, counted by their positions among the 16 of either case, spell that character or its two surrogates (section 7 of RFC 8259). |
| UnicodeLaws.SpellsExactly | jwt-cpp/include/picojson/picojson.h:717-736 | Four characters are taken as digits for a number if and only if their positions among the 16 digits of either case make it. |
| UnicodeLaws.OtherCharactersFail | jwt-cpp/include/picojson/picojson.h:717-736 | Anything but these 22 characters among the four makes the escape fail. |
| UnicodeLaws.LoneSurrogateFails | jwt-cpp/include/picojson/picojson.h:743-756 | A surrogate, spelled by such digits, that is not half of a pair is rejected. |
| UnicodeLaws.EscapeEmitsScalar | jwt-cpp/include/picojson/picojson.h:738-777 | What an accepted escape appends is the UTF-8 form of exactly the scalar value its digits spell, and a strict decoder recovers that value. |
| UnicodeLaws.EscapeReads | jwt-cpp/include/picojson/picojson.h:738-777 | Every scalar value is read as its UTF-8 form from its escape, with every choice of case for each of its digits. |
| Utf8.DecodeEncode | jwt-cpp/include/picojson/picojson.h:760-775 | Decoding the UTF-8 form of a scalar value gives it back with its length, whatever follows. |
| Utf8.EncodedTable | jwt-cpp/include/picojson/picojson.h:760-775 | How many bytes a code point takes, the bounds of each and how their bits make up the code point: the table of section 3 of RFC 3629. |
| Token.EncodePart | jwt-cpp/include/jwt-cpp/jwt.h:2888-2890 | The encoder of token parts: base64url without fills. |
| Token.DecodePart | jwt-cpp/include/jwt-cpp/jwt.h:2561-2563 | The decoder of token parts: padded, then decoded. |
| Token.Builder.SetHeaderClaim | jwt-cpp/include/jwt-cpp/jwt.h:2682-2685 | Sets one header claim and nothing else. |
| Token.Builder.SetPayloadClaim | jwt-cpp/include/jwt-cpp/jwt.h:2703-2706 | Sets one payload claim and nothing else. |
| Token.Builder.Sign | jwt-cpp/include/jwt-cpp/jwt.h:2859-2873 | The token is the two serialized and encoded parts and the encoded signature of both, joined with dots (section 3.1 of RFC 7515); the builder stays as it is. |
| Token.Split | jwt-cpp/include/jwt-cpp/jwt.h:2578-2584 | Cuts a token at its first two dots, or fails if there are none. |
| Token.ParseClaims | jwt-cpp/include/jwt-cpp/jwt.h:2289-2294 | The claims of a part are the members of the object its text parses to, with a depth budget of 100; other values, texts that do not parse and numbers out of the model are told apart. |
| Token.Decode | jwt-cpp/include/jwt-cpp/jwt.h:2576-2592 | The fields of a decoded token, or the first exception thrown on the way to them. |
| TokenLaws.SplitOfJoined | jwt-cpp/include/jwt-cpp/jwt.h:2578-2584 | A token of two parts without dots and anything behind them is cut into these. |
| TokenLaws.PartRoundTrip | jwt-cpp/include/jwt-cpp/jwt.h:2561-2563 | Encoding a part and decoding it is the identity, and the encoded part contains no dot. |
| TokenLaws.DecodablePartHasNoDot | jwt-cpp/include/jwt-cpp/jwt.h:2561-2563 | A part that decodes contains no dot. |
| TokenLaws.DecodableTokens | jwt-cpp/include/jwt-cpp/jwt.h:2576-2592 | A token that decodes has exactly two dots, and its parts rejoin to the token. |
| TokenLaws.DecodesExactly | jwt-cpp/include/jwt-cpp/jwt.h:2576-2592 | A token decodes to given fields if and only if it is three parts joined with dots that stand for the decoded header, payload and signature, and header and payload start with the JSON objects of the claims, parsed with a depth budget of 100. |
| TokenLaws.NoTokenExactly | jwt-cpp/include/jwt-cpp/jwt.h:2578-2584 | A text is refused as no token if and only if it has fewer than two dots. |
| TokenLaws.FirstException | jwt-cpp/include/jwt-cpp/jwt.h:2585-2592 | Of several reasons to refuse a token, the first part that does not decode comes first, then the claims of the header, then those of the payload. |
| TokenLaws.ClaimsRoundTrip | jwt-cpp/include/jwt-cpp/traits/kazuho-picojson/traits.h:67-71 | Claims come back from their text, unless arrays are nested too deeply in them. |
| TokenLaws.SignThenDecode | jwt-cpp/include/jwt-cpp/jwt.h:2859-2873 | Decoding a signed token recovers the header, with "alg" filled in if it was not set, the payload and the signature, exactly if the claims are not nested too deeply; the signature is the algorithm's over the text in front of the second dot. |
| TokenLaws.DecodeSignDecode | jwt-cpp/include/jwt-cpp/jwt.h:2576-2592 | The claims of any token that decodes can be signed again, and decoding the new token gives them back, "alg" filled in. |
| Verifier.Verifier.constructor | jwt-cpp/include/jwt-cpp/jwt.h:3113-3135 | A new verifier checks "exp", "iat" and "nbf" with no leeway and allows no algorithm. |
| Verifier.Verifier.Leeway | jwt-cpp/include/jwt-cpp/jwt.h:3142-3145 | Sets the default leeway only. |
| Verifier.Verifier.WithClaim | jwt-cpp/include/jwt-cpp/jwt.h:3246-3249 | Registers a check in place of the one of that name. |
| Verifier.Verifier.AllowAlgorithm | jwt-cpp/include/jwt-cpp/jwt.h:3267-3270 | Allows an algorithm under its name. |
| Verifier.Verifier.Verify | jwt-cpp/include/jwt-cpp/jwt.h:3287-3305 | Passes if and only if "alg" is a string claim of the header that names an allowed algorithm, that algorithm verifies the signature over the token in front of its second dot, and every registered check passes, in whatever order they run. Throws without such an "alg", refuses an algorithm that is not allowed and a signature that does not verify, each with its error; after that the verdict is that of a check. |
| VerifierLaws.DefaultWindow | jwt-cpp/include/jwt-cpp/jwt.h:3113-3135 | With the checks a verifier starts with, a token is accepted if and only if the algorithm named by "alg" is allowed and verifies its signature, its dates, where they are there, are integers, and the time lies in their window, widened by the leeway. |
| VerifierLaws.DefaultChecksMonotone | jwt-cpp/include/jwt-cpp/jwt.h:3113-3135 | These checks pass with every greater leeway, too. |
| VerifierLaws.MoreLeewayAccepts | jwt-cpp/include/jwt-cpp/jwt.h:3287-3305 | Raising the leeway never turns down a token that was accepted, if no registered check minds. |
| VerifierLaws.DefaultAcceptsMore | jwt-cpp/include/jwt-cpp/jwt.h:3113-3135 | With the checks a verifier starts with, raising the leeway never turns down a token that was accepted. |
| VerifierLaws.OwnLeewayWindow | jwt-cpp/include/jwt-cpp/jwt.h:2978-3005 | A date check with a leeway of its own passes if and only if the claim is there, is an integer and lies in the window widened by that leeway; a missing claim, null, another type and a date out of the window are told apart. |
| VerifierLaws.OwnLeewayMonotone | jwt-cpp/include/jwt-cpp/jwt.h:2978-3005 | Such a check passes with every greater leeway, too. |
| VerifierLaws.EqualsCheckIsEquality | jwt-cpp/include/jwt-cpp/jwt.h:2949-2971 | The check passes if and only if the claim is there and is the expected value, even where only texts are compared; nothing equals null, for which it throws; a missing claim and one of another type have their errors. |
| VerifierLaws.SubsetCheckIsSubset | jwt-cpp/include/jwt-cpp/jwt.h:3013-3036 | For every token and claim: the check passes if and only if the claim is there and stands for an audience that contains what is expected, all of it if it is a single string; it throws exactly for null and for arrays with anything but strings, and every other type is a mismatch. |
| VerifierLaws.NoneVerifiesItself | jwt-cpp/include/jwt-cpp/jwt.h:801-822 | The algorithm "none" accepts the empty signature and no other. |
| VerifierLaws.SignDecodeVerify | jwt-cpp/include/jwt-cpp/jwt.h:3287-3305 | A token that was signed and decoded is handed to its algorithm as exactly the text that was signed, so that it is accepted if and only if its claims pass. |
| ConfigLexer.Lex | src/config_parser.cc:119-210 | Every lexeme but an error or the end takes at least one character, although a delimiter is put back. |
| ConfigLexer.ParseToken | src/config_parser.cc:119-210 | The state machine over the stream returns the token, its text and the position that the recursive lexer gives. |
| ConfigText.LexWord | src/config_parser.cc:161-199 | A plain or quoted word in front of a delimiter is read as that word. |
| ConfigText.LexedWordIsLegal | src/config_parser.cc:161-199 | Every word the tokenizer returns is plain, or quoted without its quote inside. |
| ConfigLayout.WhiteSpaceIsSkipped | src/config_parser.cc:151-155 | A blank, a tab, a line break or a carriage return in front of a token changes nothing. |
| ConfigLayout.WordEnds | src/config_parser.cc:161-199 | A legal word ends in front of a blank, a tab, a line break, a semicolon or a brace. |
| ConfigLayout.PlainWordLiterally | src/config_parser.cc:127-159 | The characters that start a plain word and those that go on with it, one by one. |
| ConfigLayout.CommentIsSkipped | src/config_parser.cc:186-191 | A comment goes from its number sign to the end of the line or of the file. |
| ConfigLayout.QuoteNeedsDelimiter | src/config_parser.cc:161-185 | A quoted word with none of these six characters behind it is refused. |
| ConfigLayout.QuoteMustClose | src/config_parser.cc:203-209 | A quote that is never closed is refused. |
| ConfigLayout.LayoutIsRead | src/config_parser.cc:119-210 | Words, signs, comments and white space in any order, each word with a delimiter behind it, have exactly the tokens of the words and signs. |
| ConfigLayout.TokenizedExactly | src/config_parser.cc:119-210 | A text has given tokens and no error if and only if it is such a layout of them, with at most a plain word or a comment that the end of the file cuts off. |
| ConfigGrammar.Next | src/config_parser.cc:229-281 | A step keeps the stack in a form the next step can work on, and never accepts by itself. |
| ConfigGrammar.ParseTextRunsTokens | src/config_parser.cc:212-288 | Parsing a text is running the machine over its tokens, comments left out; a lexical error is never accepted. |
| ConfigLaws.StepReads | src/config_parser.cc:229-281 | Every step keeps the stack the path from the root to the open block, or off, once the root itself has been closed, and appends exactly the token it takes to the tokens that the stack stands for. |
| ConfigLaws.PathToOpenBlock | src/config_parser.cc:212-288 | At every point of an accepted stream with as many closing as opening braces, the stack is the non-empty path from the root to the open block: as deep as braces are open, and standing for exactly the tokens read. |
| ConfigLaws.StackBalance | src/config_parser.cc:254-269 | In every state the stack is as deep as there are braces open in the tokens read; it is empty only behind one closing brace too many. |
| ConfigLaws.PluggedTokens | src/config_parser.cc:270-276 | At the end of the file the tree is that of the tokens read, completed by the closing braces that are missing. |
| ConfigLaws.TreeIsBuilt | src/config_parser.cc:212-288 | The tokens of every well-formed tree are accepted, and the tree is built, also with one closing brace too many. |
| ConfigLaws.AcceptedExactly | src/config_parser.cc:212-288 | Exactly which streams are accepted, and as which tree: the tree's tokens, without any number of final closing braces or with one more, ending in a semicolon or a closing brace. |
| ConfigLaws.UndefinedExactly | src/config_parser.cc:233-269 | The parser uses an empty stack if and only if a word or a closing brace follows the brace that has closed the root. |
| ConfigLaws.BalancedAccepted | src/config_parser.cc:212-288 | On a stream with as many closing as opening braces, exactly the grammar is accepted, and its tree is built. |
| ConfigText.ConfigIsRead | src/config_parser.cc:20-51 | The text printed at any depth is tokenized to exactly the tokens of the tree, if its words are legal. |
| ConfigText.PrintParse | src/config_parser.cc:20-51 | Printing at any depth and parsing gives a configuration back if and only if it, its blocks and its statements are not empty and its words are legal. |
| ConfigText.ParsePrintParse | src/config_parser.cc:119-288 | For every accepted text, printing what was parsed and parsing that gives the same configuration. |
| ConfigLines.TextIsItsLines | src/config_parser.cc:20-51 | A printed configuration is its lines one behind the other: two blanks for each block a line is in, its words with blanks between them, and a semicolon or a brace. |
| ConfigEnd.TokenizedWithLineBreak | src/config_parser.cc:203-209 | A line break at the end of a text without errors adds the word that the end of the file cuts off, or nothing. |
| ConfigEnd.LosesWordExactly | src/config_parser.cc:203-209 | An accepted text loses a word if and only if the end of the file cuts off a text that is neither empty nor a comment; those are the accepted texts that are refused with a line break behind them. |
| ConfigEnd.LastWordIsDropped | src/config_parser.cc:203-209 | Behind any printed configuration, any plain word without a delimiter is dropped, and the configuration is parsed all the same. |
| ConfigEnd.CarriageReturnSticks | src/config_parser.cc:192-199 | A plain word at the end of a line that ends in a carriage return and a line break keeps the carriage return. |
| ConfigEnd.CarriageReturnBreaksQuotes | src/config_parser.cc:161-185 | A quoted word in front of a carriage return is refused. |
| ConfigParser.NginxConfig.ToString | src/config_parser.cc:20-26 | The printer of blocks returns the text of the tree the object holds. |
| ConfigParser.NginxConfigStatement.ToString | src/config_parser.cc:28-51 | The printer of statements, with its loops over depth and words, returns the text of the statement. |
| ConfigParser.PushWord | src/config_parser.cc:233-248 | A word starts a statement in the innermost block or is appended to the open one. |
| ConfigParser.PushBlock | src/config_parser.cc:254-262 | A brace makes a block the child of the open statement and the innermost block. |
| ConfigParser.CloseBlock | src/config_parser.cc:263-269 | Taking the innermost block off the stack leaves it as the finished child of the statement below. |
| ConfigParser.Step | src/config_parser.cc:229-281 | One round of the loop takes the objects on the stack from what one state of the machine says to what the next says. |
| ConfigParser.Parse | src/config_parser.cc:212-288 | The loop over the stream, with its stack of pointers into the tree that it grows, returns true exactly if the machine accepts, and the tree of objects then is the machine's. |
| Routing.LongestMatchIsUnique | src/session.cc:148-160 | There is at most one longest route that is a prefix of a target. |
| Routing.Match | src/session.cc:148-160 | Returns that route, or nothing, in whatever order the routes come. |
| Routing.Route | src/session.cc:58-88 | A request is refused exactly if no route is a prefix of its target; otherwise the handler's `substr(prefix_length)` is in range. |
| Paths.CutAtLastSlash | src/request_handler.cc:397-406 | The last slash cuts a path into its last component and the text of the others. |
| Paths.JoinedSplit | src/request_handler.cc:394-406 | The components of a path, joined with slashes, are the path. |
| Paths.SplitExactly | src/request_handler.cc:394-406 | The components are the only strings without slashes that, joined with slashes, are the path. |
| Api.FreeFrom | src/request_handler.cc:170-172 | The search for a free id ends, after no more steps than there are ids. |
| Api.NextId | src/request_handler.cc:165-178 | The id found is the least positive one not in the set, at most the number of ids and one. |
| Api.Ascending | src/request_handler.cc:278-281 | The ids in the order of `std::set`: all of them, each once, ascending. |
| Api.TargetOf | src/request_handler.cc:370-415 | A target that names an entity has a path without slashes in its components, and the id and the entity follow from the path alone. |
| ApiLaws.NoTarget | src/request_handler.cc:370-392 | A target names nothing if and only if it is empty, does not start with a slash, or is just a slash. |
| ApiLaws.TargetOfOne | src/request_handler.cc:397-406 | A single component is the entity, and also the id if it starts with a number; a slash behind it changes nothing. |
| ApiLaws.TargetOfMore | src/request_handler.cc:397-406 | The last of several components, if it starts with a number, is the id, and the text in front of its slash the entity; otherwise all of it is the entity. |
| ApiLaws.TargetOfItem | src/request_handler.cc:370-415 | The target of an entity and an id, with or without a slash at the end, is understood as exactly these. |
| ApiHandler.RequestHandlerApi.ParseUrlTarget | src/request_handler.cc:370-415 | Cutting the string with `find_last_of` and `substr`, one of them with a length that wraps around, gives the path, the id and the entity of the components. |
| ApiHandler.FileSystem.WriteFile | src/filesystem.cc:29-34 | Replaces or creates one file, or does nothing where the file cannot be opened: the directories and all other files stay. |
| ApiHandler.WithCommas | src/request_handler.cc:278-281 | The loop appends every id and a comma, in ascending order. |
| ApiHandler.RequestHandlerApi.GetNextId | src/request_handler.cc:165-178 | The loop finds the least positive id that is not taken and enters it; without an entity in the index it must not be called. |
| ApiHandler.RequestHandlerApi.EraseIfExist | src/request_handler.cc:181-194 | Takes an id out of the index, and changes nothing else. |
| ApiHandler.RequestHandlerApi.InsertIfNotExist | src/request_handler.cc:197-216 | Enters an id into the index, with its entity if that is new. |
| ApiHandler.RequestHandlerApi.Post | src/request_handler.cc:240-262 | Creating an item, in every state: one component makes the directory and the entity if they are not there, takes the least free id, writes the file and answers 201 with the id; more components are answered with 400 and change nothing. |
| ApiHandler.RequestHandlerApi.Get | src/request_handler.cc:263-315 | Listing or retrieving, in every state: the list, the empty entity's text or the 404 page for id 0; for another id the file and the id entered, or the 404 page and the id erased. No file changes. |
| ApiHandler.RequestHandlerApi.Update | src/request_handler.cc:316-335 | Updating an item, in every state: two components with an id make the directory if it is not there, write the file and enter the id; anything else is answered with 400 and changes nothing. |
| ApiHandler.RequestHandlerApi.Delete | src/request_handler.cc:336-349 | Deleting an item, in every state: the file and its id are gone, or the answer is the 404 page and nothing changes. |
| ApiHandler.RequestHandlerApi.GetResponse | src/request_handler.cc:218-368 | Every request changes files and index, and is answered, as the specification says; true is returned exactly below status 400. |
| ApiLaws.IdsKept | src/request_handler.cc:181-216 | Entering and erasing an id change its membership in its entity and no other; an entity is entered with its first id and never taken out. |
| ApiLaws.RefusedExactly | src/request_handler.cc:218-368 | In every state, exactly which requests are refused, and with which of the pages 404, 400 and 405; no file changes, and the index only for a GET with an id. |
| ApiLaws.GrantedExactly | src/request_handler.cc:263-349 | In every state, the body of every answer 200; a GET changes no file, and without an id nothing. |
| ApiLaws.PostKeeps | src/request_handler.cc:240-262 | Creating an item keeps the index in agreement with the files, whatever the entity is called. |
| ApiLaws.GetExact | src/request_handler.cc:263-310 | Reading breaks the agreement exactly if it erases an id whose file is there. |
| ApiLaws.PutExact | src/request_handler.cc:316-335 | Updating breaks the agreement exactly if a file is written under a name that is not the printed form of its id. |
| ApiLaws.DeleteKeeps | src/request_handler.cc:336-349 | Deleting keeps the agreement. |
| ApiLaws.AnsweredExact | src/request_handler.cc:218-368 | From a consistent state, a request leads to one if and only if it is not one of these two kinds. |
| ApiLaws.CleanExactly | src/request_handler.cc:370-415 | The clean targets are exactly those with which no request leaves the consistent states. |
| ApiLaws.RunKeeps | src/request_handler.cc:218-368 | No run of clean requests, of any length, leaves the consistent states. |
| ApiLaws.PostUndefinedExactly | src/request_handler.cc:165-178 | In a consistent state, the unchecked lookup fails for no request; only an entity with all 2147483647 ids taken has no next id. |
| ApiLaws.RunFinishes | src/request_handler.cc:218-368 | While ids are left, every clean request of a run gets its answer. |
| ApiLaws.PostIsFresh | src/request_handler.cc:253-260 | A new item never replaces a file, and no other file changes. |
| ApiSafety.ReplacesExactly | src/request_handler.cc:253-260 | A new item replaces one if and only if the file of the least id that is free in the index is there. |
| ApiSafety.SafeServed | src/request_handler.cc:218-368 | A request whose target has no positive id, or one in canonical form, keeps index and files in agreement on the ids that new items get. |
| ApiSafety.SafeRun | src/request_handler.cc:218-368 | So does every run of such requests. |
| ApiSafety.SafeRunNeverReplaces | src/request_handler.cc:218-368 | After every run of such requests from a consistent state, a new item of any entity replaces none. |
| ApiSafety.ReplacesAfterExactly | src/request_handler.cc:263-310 | From a consistent state and after any one request, the next new item of an entity replaces one if and only if the request was a GET that took the id of a stored item out of the index, all smaller ids being taken. |
| ApiSafety.CanReplaceExactly | src/request_handler.cc:370-415 | For every path: some request with that target, from some consistent state, makes the next new item of its entity replace one, if and only if the target names a positive id and is not clean. |
| ApiSafety.UncleanGetLosesAnItem | src/request_handler.cc:293-300 | A GET whose target names the id k, but not in canonical form, is answered with 404 and takes k out of the index, and the next new item is written over the item k, if the items 1 to k are there. |
| ApiSafety.NumericEntityLosesAnItem | src/request_handler.cc:293-300 | The request for the list of an entity whose name reads as k does that, for every positive k. |
| ApiSafety.NumericEntityExists | src/request_handler.cc:397-406 | Such a state: the entity `1` with its item 1. |
| ApiSafety.NonCanonicalIdLosesAnItem | src/request_handler.cc:404-405 | The request for an item of any entity whose id reads as k, but is not the printed form of k, does that, too. |
| ApiSafety.LeadingZero | src/request_handler.cc:404-405 | Such an id: `01`. |
| ApiStore.ListingIsListText | src/request_handler.cc:273-284 | A list is an opening bracket, the ids ascending with commas between them, and a closing bracket; that of no ids is the closing bracket alone. |
| ApiStore.ServedMatches | src/request_handler.cc:218-368 | Every clean request is answered as a plain store of bodies under entities and ids answers it. |
| ApiStore.RunRefines | src/request_handler.cc:218-368 | Over whole runs of clean requests, files and index give exactly the responses of that store, and hold in the end what it holds. |
| ApiScan.ApiHandlerFactory.InsertId | src/request_handler_factory.cc:29-48 | The loop over a directory enters the entity with the ids its file names read as, numbers at their start included. |
| ApiScan.ApiHandlerFactory.ScanFs | src/request_handler_factory.cc:52-70 | The loop over the base directory enters every entity; without a base directory one is made and false returned. |
| ApiScan.ScanAgreesExactly | src/request_handler_factory.cc:29-70 | On any tree of files, the index agrees with them if and only if every file whose name reads as a number has one beside it named by that number, and none is named by a number out of range. |
| ApiScan.ScanIsConsistent | src/request_handler_factory.cc:29-70 | The scan starts a consistent state if and only if the tree has nothing in it but entities and items. |
| ApiScan.ScanThenRun | src/request_handler_factory.cc:52-70 | After the scan of such a tree, every run of clean requests ends in a consistent state. |
| ApiUsers.RewrittenIsOwned | src/request_handler.cc:484-495 | The rewritten target of a user names something of the user's, or nothing. |
| ApiUsers.MarksDiffer | src/request_handler.cc:487-487 | Names without `_` and `/` in them give name spaces that do not overlap. |
| ApiUsers.SeenServed | src/request_handler.cc:218-368 | A request is answered from what its user can see of the files and the index, and changes nothing else. |
| ApiUsers.UsersDoNotMeet | src/request_handler.cc:474-495 | Whatever other private users request in between, clean or not, a user gets the responses, and ends with the files and index entries, that the user's own requests alone give. |
| ApiUsers.SecureRequestHandlerApi.GetPrivate | src/request_handler.cc:474-495 | The request is answered from the private files as that whose target has the user and an underscore behind the location's slash; short targets are passed on as they are. |
| ApiUsers.SecureRequestHandlerApi.GetResponse | src/request_handler.cc:437-508 | At most seven characters of a header are answered with 401 `No token found` and a denied token with 401 `Invalid token`, and nothing changes; a private user's token leads to the private files and the rewritten request, a public one to the public files, and the other files stay as they are. |

## Left out

- JsonGrammar.ParseValue: a number that is no 64-bit integer ends the model with an outcome of its own, so doubles, and numerals `strtod` would reject, are not told apart; the locale's decimal point is not part of this model.
- JsonParser.ParseText: the text of an error message and the partial value left behind by a failed parse.
- Token.Decode: a part with a number that is no integer gives a failure of its own, for the same reason; a claim that is such a number cannot be built.
- Verifier.Verifier.Verify: dates are unbounded integers, so that the overflow of a time with its leeway does not occur; a check that throws is a verdict.
- VerifierLaws.EqualsCheckIsEquality: claims in the header, doubles, and the comparison without case are not modelled.
- VerifierLaws.SignDecodeVerify: OpenSSL is a parameter: an algorithm is any pair of functions that verifies what it signs.
- ConfigParser.Parse: requires that the stream does not use an empty stack; after a refusal nothing is said about the part of the tree that was built.
- ApiHandler.RequestHandlerApi.GetResponse: requires a path without components that are empty, `.` or `..`, whose meaning is Boost's; such targets have the outcome `Unmodelled`.
- ApiLaws.RunFinishes: ids end at 2147483647, where the original overflows; the lemma asks for room for as many ids as there are requests.
- ApiUsers.SecureRequestHandlerApi.GetResponse: private and public users share one index but not their files, so the agreement of index and files is proved for the plain handler only; creating the two directories in the constructor is left out.
- ApiUsers.UsersDoNotMeet: speaks of runs in which every request has an answer; a target with `..` in it, which could name another user's files, has none in this model.
- ApiScan.ApiHandlerFactory.ScanFs: entries that are neither directories nor regular files do not occur, and a directory's entries are read while nothing else changes them.
- Routing.Route: the factories, the handlers they make and the log are not part of this model.
- Requests are answered one at a time: sockets, TLS, threads and the missing lock around the index are left out.
- MIME types and header fields of responses; the echo, health, sleep, login, static and not-found handlers; the file system stand-in of the tests; the getters over configurations.
