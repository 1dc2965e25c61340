# Digest text of the secp256k1 wallet example

The program is a small secp256k1 wallet written on top of OpenSSL. It generates a key pair, hashes a message, signs the hash and verifies the signature. Almost all of it is calls into the library. The logic the program owns is how it turns the 32-byte SHA-256 output into text, and how sign and verify then use that text as the "message digest".

- `sha256` streams every digest byte through `std::hex` into a string stream. That writes each byte as its shortest lowercase hex numeral, so a byte below 0x10 becomes a single character and the text is not zero-padded. The text is between 32 and 64 characters long. Two different digests can give the same text; for example, `[0x01, 0x10]` and `[0x11, 0x00]` both give `"110"`.
- `Wallet::sign` and `Wallet::verify` cast that string's characters to bytes and pass the first `mdlen = 32` of them to the ECDSA primitive. The signed bytes are therefore ASCII codes of hex digits, not the SHA-256 output. They cover only the digest bytes whose numerals fall in the first 32 characters: as few as 16 of the 32 bytes.

The project has three modules:

- `Results` (`results.dfy`): the option and result types.
- `HexRender` (`hex_render.dfy`): the rendering. `RenderByte` handles one byte and `Render` handles a byte sequence. `Sha256` is the loop, with the hash given as a parameter. The module also has the lemmas about length, alphabet, concatenation, decoding and non-injectivity.
- `Wallet` (`wallet.dfy`): the fixed 32-byte digest read (`DigestInput`) and `Sign`/`Verify` up to the primitive. It also has the lemmas about what the primitive is given.

A C++ `std::string` is modelled as `ByteString`: a `seq<char>` in which every character has a code below 256. Bytes are `bv8`.

The rendering is deterministic by construction. `Render` is a function of the digest bytes, and `Sha256` is proved to return `Render(sha(str))`.

Two consequences of the code worth stating plainly:
- The digest text is not two characters per byte: a byte below 0x10 gives one character (eccExample.cpp:49).
- What gets signed is the ASCII codes of the first 32 hex characters, not the 32 hash bytes (eccExample.cpp:104, 131-135).

## Model

| member | source | states |
|---|---|---|
| HexRender.HexDigit | eccExample.cpp:49 | the digit `std::hex` writes for a nibble is a lowercase hex digit whose value is that nibble |
| HexRender.RenderByte | eccExample.cpp:49 | a byte renders as one character when below 0x10 and as two otherwise; every character is a lowercase hex digit; read high digit first, the numeral's value is the byte's value; a two-character numeral has no leading '0' |
| HexRender.Render | eccExample.cpp:48-50 | the text of n bytes has between n and 2n characters, all lowercase hex digits |
| HexRender.Sha256 | eccExample.cpp:44-51 | the streamed text equals the in-order rendering of the hash's 32 bytes, so it depends only on those bytes; it has 32 to 64 characters, all lowercase hex digits |
| HexRender.RenderAppend | eccExample.cpp:49 | rendering `a + b` gives the rendering of `a` followed by that of `b` |
| HexRender.RenderLength | eccExample.cpp:46-50 | the text's length is the byte count plus the number of bytes that are at least 0x10 |
| HexRender.CountWideExtremes | eccExample.cpp:49 | every byte is at least 0x10 iff all of them are counted wide; none is iff the count is 0 |
| HexRender.DigestTextLength | eccExample.cpp:46-50 | a digest's text has 32 to 64 characters; 64 iff every byte is at least 0x10; 32 iff every byte is below 0x10 |
| HexRender.WideRoundTrip | eccExample.cpp:49 | bytes that are all at least 0x10 are recovered by reading their text two digits at a time |
| HexRender.FullLengthTextDecodes | eccExample.cpp:46-50 | a 64-character digest text decodes back to its digest |
| HexRender.RenderNotInjective | eccExample.cpp:49 | `[0x01,0x10]` and `[0x11,0x00]` both render as "110"; two distinct 32-byte digests have the same text |
| Wallet.AsBytes | eccExample.cpp:104 | the byte view of a string has one byte per character, and that byte is the character's code |
| Wallet.CStr | eccExample.cpp:104 | the buffer behind `c_str()` holds the string's character codes followed by a terminating 0 byte |
| Wallet.DigestInput | eccExample.cpp:131-135 | reading `mdlen = 32` bytes of the `c_str()` buffer succeeds exactly when the string holds at least 31 characters (the 32nd byte may be the terminating NUL) and yields 32 bytes; otherwise the error carries the string's length |
| Wallet.TerminatorRead | eccExample.cpp:104 | a 31-character hash string hands the primitive its 31 character codes followed by the 0 terminator |
| Wallet.Sign | eccExample.cpp:102-135 | signing fails exactly when the hash string has fewer than 31 characters, too short for the 32-byte read |
| Wallet.Verify | eccExample.cpp:209-212 | verifying fails exactly when the hash string has fewer than 31 characters, too short for the 32-byte read |
| Wallet.DigestInputIsTextPrefix | eccExample.cpp:104 | the bytes given to the primitive, read back as characters, are the first 32 characters of the hash string |
| Wallet.RenderedDigestReadInBounds | eccExample.cpp:127-135 | for every digest, the 32-byte read of its text stays within the text, and every byte read is the code of a lowercase hex digit |
| Wallet.SignedBytesAreNotTheDigest | eccExample.cpp:102-104 | if a digest holds any byte that is not the code of a lowercase hex digit, the signed bytes differ from the digest |
| Wallet.SharedTextPrefixSharesInput | eccExample.cpp:209-212 | two hash strings that agree on their first 32 characters give the primitive the same bytes |
| Wallet.SignedInputDependsOnPrefix | eccExample.cpp:131-135 | if a digest prefix already renders to 32 or more characters, digests sharing that prefix give the primitive the same bytes |
| Wallet.SignedInputCoversFirstHalf | eccExample.cpp:131-135 | digests whose first 16 bytes agree and are all at least 0x10 give the primitive the same bytes |
| Wallet.DistinctDigestsShareSignedInput | eccExample.cpp:131 | two distinct digests exist whose texts give the primitive the same bytes |
| Wallet.SignThenVerify | eccExample.cpp:209-210 | with a primitive that accepts its own signatures, signing a digest's text and then verifying against the same text returns 1, because both sides read the same 32-character prefix |
| Wallet.AcceptedForOtherMessage | eccExample.cpp:209-212 | a signature over one message verifies against another message whose digest shares the first 16 bytes, when those bytes are all at least 0x10 |

## Left out

- The SHA-256 computation (eccExample.cpp:47) is an OpenSSL call. It is the parameter `sha`, a total function from byte strings to 32-byte digests.
- Key generation and PEM export (eccExample.cpp:57-100) are not modelled: curve key generation, memory BIOs and fixed 255/174-byte read buffers.
- Private- and public-key parsing, the `EVP_PKEY_CTX` set-up and `EVP_PKEY_sign`/`EVP_PKEY_verify` (eccExample.cpp:106-147, 185-212) are not modelled: they are cryptographic library calls. `Sign` and `Verify` take them as one `primitive` parameter applied to the 32 digest bytes. The signature is a type parameter `S`.
- The `Signature` record and its hex encoding and decoding through `OPENSSL_buf2hexstr_ex` and `OPENSSL_hexstr2buf_ex` into 256-byte buffers (eccExample.cpp:149-161, 180-183) are not modelled: they are library codecs. They sit inside the `primitive` parameters.
- Error reporting on `cerr` when a library call fails, and execution going on afterwards, are not modelled. Those failures happen inside the primitives.
- Freeing resources, console output and `main` (eccExample.cpp:162-167, 215-216, 220-244) are I/O and demo glue.
- Wallet.DigestInput: the source does not check the hash string's length before it reads 32 bytes. A 31-character string is read up to its terminating NUL, which is defined and modelled. A string of 30 characters or fewer is read past that NUL, which is undefined behaviour in C++. For those the model returns `DigestTextTooShort`, and it proves that this never happens for a rendered digest.

