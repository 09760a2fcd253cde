# Chat app: connection registry and client encryption framing

This project models two small pieces of a socket.io group chat and proves
properties of them in Dafny.

- **The server's connection registry** (`backend/server.js`): one map from
  socket id to username, changed by the `join`, `message` and `disconnect`
  handlers. `Server.Registry` holds the map. Each handler is a method that
  returns the events it broadcasts to every client (`userJoined`, `message`,
  `userLeft`), in emission order. Each method is specified by a pure step
  function (`JoinStep`, `MessageStep`, `DisconnectStep`). `Run` folds the
  step functions over a trace of inbound events, and the trace lemmas are
  stated over it. Two quirks are kept as written. No username is checked for
  uniqueness. A socket that joined with the empty string is never removed,
  because the disconnect handler's truthiness test fails for `""`.
- **The client's encryption helper** (`frontend/encryption.js`). The
  cryptography is opaque. What is modelled is the helper's own logic:
  - the `key` and `isSupported` guards, in `ClientEncryption.Encryption`;
  - the `'='` padding of base64 text;
  - the loop that copies character codes into a `Uint8Array`;
  - the `iv ++ ciphertext` framing that `encrypt` builds and `decrypt`
    splits at `IvLength` (12).

  The browser functions (`btoa`, `atob`, Web Crypto's `exportKey`,
  `importKey`, `encrypt` and `decrypt`) are arrow-typed fields of a
  `Browser` value passed in as a parameter. A `None` result stands for a
  call that throws or rejects. `Browser` also holds the engine's limit on
  how many arguments one call may be spread over, which
  `String.fromCharCode(...bytes)` can exceed. The random inputs are method parameters: the
  key that `generateKey` resolves to, and the 12 IV bytes from
  `getRandomValues`. `DecryptInvertsEncrypt` proves that decryption with the
  same key returns the message. It assumes two things of the browser: `atob`
  undoes `btoa` and `btoa` output is padded (`Base64Inverse`), and AES-GCM
  decryption opens what encryption sealed (`GcmInverse`).

JavaScript strings are `string`, and only the empty string is falsy. A
`Uint8Array` element is the newtype `byte` (0 to 255). A thrown error or a
rejected promise is an `Err` of `Result`, or a `None` of `Option`.

## Model

| member | source | states |
|---|---|---|
| `Server.JoinStep` | backend/server.js:24-30 | join binds the socket to the name, overwriting any earlier binding for that socket; every other socket keeps its binding; exactly one `userJoined` goes out, carrying the name and "<name> has joined the chat" |
| `Server.MessageStep` | backend/server.js:33-40 | the registry is unchanged; exactly one `message` event goes out; its username is the sender's bound name, or absent when the socket never joined; payload and timestamp are relayed |
| `Server.DisconnectStep` | backend/server.js:43-53 | the socket leaves the registry exactly when its bound name is truthy; other sockets keep their bindings; at most one event goes out, a `userLeft` with the bound name and "<name> has left the chat", and only when the name was removed |
| `Server.Registry.constructor` | backend/server.js:18 | the registry starts empty |
| `Server.Registry.OnJoin` | backend/server.js:24-30 | the new map and the emitted events are those of `JoinStep` on the old map |
| `Server.Registry.OnMessage` | backend/server.js:33-40 | changes nothing; the emitted events are those of `MessageStep` |
| `Server.Registry.OnDisconnect` | backend/server.js:43-53 | the new map and the emitted events are those of `DisconnectStep` on the old map |
| `Server.SameNameOnTwoSockets` | backend/server.js:25 | two different sockets can join under the same name and both stay bound to it |
| `Server.DisconnectTwiceIsNoop` | backend/server.js:44-46 | after one disconnect of a socket, a second changes nothing and emits nothing |
| `Server.EmptyNameSurvivesDisconnect` | backend/server.js:45-46 | a socket that joined with "" is still bound to "" after it disconnects, and no `userLeft` goes out |
| `Server.EmptyNameNeverRemoved` | backend/server.js:24-53 | a binding to "" survives every later trace that does not re-join that socket |
| `Server.BoundNamesWereAnnounced` | backend/server.js:24-30 | from an empty registry, every bound name was announced by a `userJoined` event of the log |
| `Server.DeparturesFollowArrivals` | backend/server.js:43-51 | from an empty registry, every `userLeft` names a user that an earlier `userJoined` announced |
| `Server.DeparturesNeverOutnumberArrivals` | backend/server.js:24-53 | from an empty registry, the bound sockets plus the `userLeft` events never exceed the `userJoined` events |
| `ClientEncryption.PadEnd` | frontend/encryption.js:166 | `padEnd` keeps the text as a prefix and fills up to the target length with the filler, never shortening |
| `ClientEncryption.PaddedBase64` | frontend/encryption.js:166 | the padded length is a multiple of 4; the input is a prefix; between 0 and 3 characters are appended, all of them '=' |
| `ClientEncryption.PaddingIsIdempotent` | frontend/encryption.js:166 | text whose length is a multiple of 4 is returned unchanged, so padding twice equals padding once |
| `ClientEncryption.PaddingIsUnique` | frontend/encryption.js:166 | the padded text is the only extension by fewer than four '=' to a multiple of 4 |
| `ClientEncryption.CharCodes` | frontend/encryption.js:168-171 | the copied bytes have the length of the binary string, and byte i is character i's code modulo 256 |
| `ClientEncryption.ArrayBufferToBase64` | frontend/encryption.js:157-160 | rejects with a `RangeError` exactly when the buffer has more bytes than the engine's argument limit; otherwise the result is `btoa` of the binary string of the bytes |
| `ClientEncryption.BinaryString` | frontend/encryption.js:158 | `String.fromCharCode` over the bytes gives one character per byte, with that byte as its code |
| `ClientEncryption.CharCodesOfBinaryString` | frontend/encryption.js:157-171 | copying the codes of the binary string built from some bytes gives back those bytes |
| `ClientEncryption.BinaryStringOfCharCodes` | frontend/encryption.js:157-171 | for a string whose codes are all below 256, rebuilding it from its copied codes gives it back |
| `ClientEncryption.Slice` | frontend/encryption.js:135-136 | `slice` with in-range bounds is the sub-range; an end past the length is clamped, giving the rest of the buffer from the start; a start at or past the length, or an end not after the start, gives an empty buffer |
| `ClientEncryption.Unframe` | frontend/encryption.js:135-136 | IV and ciphertext concatenate back to the input; the IV has 12 bytes when the input has at least 12; a shorter input is all IV with no ciphertext |
| `ClientEncryption.UnframeInvertsFrame` | frontend/encryption.js:135-136 | splitting `iv ++ ciphertext` with a 12-byte IV gives back exactly that IV and that ciphertext |
| `ClientEncryption.Frame` | frontend/encryption.js:111-114 | the combined array has length |iv| + |ciphertext|; its first |iv| bytes are the IV and the rest are the ciphertext |
| `ClientEncryption.DecryptInvertsEncrypt` | frontend/encryption.js:90-154 | if `atob` undoes `btoa` and AES-GCM decryption undoes encryption, then decrypting what `encrypt` produced with the same key returns the message |
| `ClientEncryption.Encryption.constructor` | frontend/encryption.js:3-9 | the helper starts with no key and with encryption unsupported |
| `ClientEncryption.Encryption.Initialize` | frontend/encryption.js:13-30 | afterwards `isSupported` is whether Web Crypto is available; without Web Crypto the key is left as it was; starting unsupported, the key is also left as it was, because the inner `generateKey` returns early |
| `ClientEncryption.Encryption.GenerateKey` | frontend/encryption.js:33-60 | when unsupported: returns null and leaves the key alone. A failed generation: null, key kept, support turned off. A failed export, or an export too long for `String.fromCharCode`: null, the new key kept, support turned off. Otherwise: the new key and its base64 export |
| `ClientEncryption.Encryption.ImportKey` | frontend/encryption.js:63-87 | when unsupported: false. A failed decode or import: false, key kept, support turned off. Otherwise: true, with the imported key installed |
| `ClientEncryption.Encryption.Encrypt` | frontend/encryption.js:90-122 | no key: the no-key error. Otherwise: a failed cipher call rejects; so does an `iv ++ ciphertext` longer than the engine's argument limit; otherwise the result is the base64 of `iv ++ ciphertext` |
| `ClientEncryption.Encryption.Decrypt` | frontend/encryption.js:125-154 | no key: the no-key error. Otherwise: the input is padded and decoded, split at 12 bytes and opened; each failing step rejects |
| `ClientEncryption.Encryption.Base64ToArrayBuffer` | frontend/encryption.js:163-177 | pads, decodes with `atob` (rejecting when it fails), and copies every character code modulo 256 into a byte array of the same length |
| `ClientEncryption.EncryptAfterStartup` | frontend/encryption.js:3-34 | after construction and `initialize()`, `isSupported` reflects Web Crypto's availability, yet no key is held, so the first `encrypt` rejects with the no-key error |

## Left out

- The Express app, CORS, the socket.io server and `server.listen` in `backend/server.js`: transport and process plumbing.
- Delivery of broadcast events: each handler returns its events in emission order instead of sending them.
- Console logging: the `console.log` lines of `backend/server.js` and the `console.warn`, `console.error` and `console.log` calls of `frontend/encryption.js` are not modelled, since they only write diagnostics.
- `new Date().toISOString()` is clock access. The timestamp is a parameter of the `message` handler.
- Non-string `join` and `message` payloads: the model takes usernames and chat payloads to be strings, though the server would accept any JSON value.
- `frontend/script.js`: it is client UI, DOM rendering and socket wiring. The client also emits `editMessage`, `deleteMessage`, `addReaction`, `messageRead`, `voiceMessage` and `typing`. `backend/server.js` has no handler for any of them, so there is no message store, reaction set, read receipt or typing state to model.
- Web Crypto key generation, export, import, encryption and decryption, `getRandomValues`, `btoa`, `atob`, `TextEncoder` and `TextDecoder` are foreign calls. They appear only as opaque functions or parameter values.
- `ClientEncryption.CharCodes`: JavaScript's `charCodeAt` reads UTF-16 code units, while a Dafny `char` is a Unicode scalar value. The two agree on every character `atob` can return, since those all have codes below 256.
- `ClientEncryption.PaddedBase64`: JavaScript's `length` counts UTF-16 code units, and the model counts characters. They differ only for characters outside the Basic Multilingual Plane, which never occur in base64 text.
- The scheduling of `initialize()` against other code. Its promise steps are modelled as one sequential method, run to completion after the constructor.
- The constants `Algorithm`, `KeyLength` and `TagLength` are recorded but not used. They only parameterise the opaque Web Crypto calls.
