# serial_singleton in Dafny

A model of `serial_singleton`, a pyserial subclass that keeps one live serial
connection handle per port for the whole process. The model covers four parts:

- **The per-port registry** (module `SerialSingleton`). A `Registry` object holds
  the class-level table `_instances` as a `map<Option<string>, Handle>`. A
  `Handle` object has the requesting class's name as `owner`, plus `port`,
  `initialized`, `isOpen` and the captured `portInfo`.
  - `ConstructOrFetch` is `__new__` followed by `__init__`.
  - `Handle.SetPort` is the `port` setter.
  - `Registry.Finalize` is `__del__`, called explicitly.
  - The object invariant says that distinct keys hold distinct handles.
- **`to_bytes`** (module `ByteConversion`). It is defined over a tagged `Payload`:
  int, str, list, and already-encoded bytes. Text is encoded by a real UTF-8
  encoder (module `Utf8`). A strict UTF-8 decoder is its proved inverse.
- **`filter_ports`** (module `PortDiscovery`). It is modelled as a method with the
  source's nested loop, its `yield_port` flag and its `continue`/`break`. The
  method is proved equal to a specification function `Filtered`.
- **The two serial-number/port lookups** (module `PortDiscovery`). They are
  first-match scans built on `FirstWhere`, the model of `next(generator, None)`.
  The record list that `list_ports.comports()` would produce is a parameter.

Some behaviours of the code are modelled as written:

- A missing attribute excludes a port in `filter_ports`. The `pass` branch falls
  through to `yield_port = False`.
- When both sides are strings, a failed pattern search excludes the port. There
  is no fallback to equality.
- The lookups return and compare the record's `name`. `filter_ports` and the
  `port_info` capture use `device`.
- `get_port_from_serial_number(...) or port` turns an empty name into `None`.
- The second positional argument is shared. `__new__` reads it as `serial_number`, and `__init__` reads it as `connect`. A call `Owner(port, serial_number)` therefore never has `connect is True`, so such a handle is never opened. `ConstructOrFetch` states this with the precondition that a serial number comes with `connect` false.
- `__init__` binds the caller's own `port` argument, not the key that `__new__`
  resolved. A handle requested by serial number alone is therefore stored under
  the record's name while its port is `None`. `SerialNumberScenario` shows this.
- `__del__` pops the entry under the handle's current port and does not check
  that the entry holds this handle.
- The table entry is inserted before `__init__` runs. If the transport fails to
  open the port, an uninitialized handle stays in the table, and the next
  request by the same class initializes it again. The transport's verdict is the
  parameter `openSucceeds`.
- `__init__` first runs pyserial's base constructor, which resets the
  connection to closed. So after a full initialization, `isOpen` holds exactly
  when a port was given, `connect` was true and the open succeeded.

`re.search` is the parameter `matches`, an uninterpreted predicate on
(pattern, text).

## Model

| member | source | states |
|---|---|---|
| `SerialSingleton.ResolveKey` | src/serial_singleton.py:32-33 | An explicit port is the key. With neither port nor serial number the key is None. With only a serial number, the key is the name of the first record with that serial number, and it is present exactly when such a record exists and its name is non-empty. |
| `SerialSingleton.Registry.ConstructOrFetch` | src/serial_singleton.py:24-65 | A serial number is passed as the second positional argument, which `__init__` reads as `connect`, so it requires `connect` to be false. Another class holding the key gives PortInUse with that class's name, and the table and every handle are unchanged. The same class holding an initialized handle gets that very handle, with nothing changed. The same class holding a handle whose initialization failed gets it re-initialized in place. A free key gets exactly one fresh handle, distinct from all others, added under it; the handle is bound to the port argument, open iff port, connect and open success all hold, initialized iff the result is a success. Distinct keys keep distinct handles. |
| `SerialSingleton.Registry.constructor` | src/serial_singleton.py:20 | The table starts empty and satisfies the invariant. |
| `SerialSingleton.Handle.constructor` | src/serial_singleton.py:40 | A bare instance has the requesting class's name, no port, is not initialized and is closed. |
| `SerialSingleton.Handle.Initialize` | src/serial_singleton.py:51-65 | On an initialized handle it does nothing. Otherwise the port becomes the argument; the handle opens iff a port is given, connect holds and the open succeeds; a failed open is reported and leaves the handle uninitialized; otherwise the handle becomes initialized and captures the first record whose device is the port. |
| `SerialSingleton.Handle.SetPort` | src/serial_singleton.py:94-119 | On an initialized handle it always fails with PortAlreadyBound and the port is unchanged. On an uninitialized handle, None leaves the port as it was and any other value becomes the port. Nothing else changes. |
| `SerialSingleton.Registry.Finalize` | src/serial_singleton.py:67-72 | The handle is closed. The table loses exactly the entry under the handle's port, whichever handle it holds, and keeps every other entry. The invariant is kept. |
| `SerialSingleton.SingletonScenario` | tests/test_serial_singleton.py:15-39 | From the contracts alone: an unconnected handle is closed; two requests for one port return the same handle; another port gets a different handle; another class is refused the port; an initialized handle's port cannot be changed. |
| `SerialSingleton.SerialNumberScenario` | src/serial_singleton.py:32-72 | A handle requested by serial number is stored under the record's name but bound to port None. It is not opened, and an explicit `__del__()` call on it leaves its own entry in the table. |
| `ByteConversion.IntToByte` | src/serial_singleton.py:246-247 | An int in 0..255 becomes exactly that one byte; any other int is refused with OverflowError. |
| `ByteConversion.TextToUtf8` | src/serial_singleton.py:248-249 | A str always converts, and its bytes decode back to the str under strict UTF-8. Text below code point 0x80 gives one byte per character, equal to its code point. |
| `ByteConversion.EmptyList` | src/serial_singleton.py:250-251 | The empty list gives the empty byte string. |
| `ByteConversion.ListAppend` | src/serial_singleton.py:250-251 | Converting `a + b` is converting `a` then `b`: the first failure wins, and otherwise the bytes are concatenated. |
| `ByteConversion.Singleton` | src/serial_singleton.py:250-251 | A one-element list converts exactly like its element. |
| `ByteConversion.SucceedsIffIntsFit` | src/serial_singleton.py:243-253 | Conversion succeeds exactly when every int in the payload, at any depth, fits in a byte. |
| `ByteConversion.ListSucceedsIffIntsFit` | src/serial_singleton.py:250-251 | A list converts exactly when every element's ints fit in a byte. |
| `Utf8.EncodeChar` | src/serial_singleton.py:249 | One character takes 1 to 4 bytes, and takes one byte, equal to its code point, exactly when the code point is below 0x80. |
| `Utf8.EncodeAppend` | src/serial_singleton.py:249 | Encoding a concatenation is concatenating the encodings. |
| `Utf8.DecodeEncode` | src/serial_singleton.py:249 | Strict decoding of an encoding gives back the string. |
| `Utf8.EncodeDecode` | src/serial_singleton.py:249 | Any byte string that decodes is the encoding of what it decodes to, so the encoding is the only byte string for its text. |
| `Utf8.EncodeAscii` | src/serial_singleton.py:249 | Text below code point 0x80 encodes to one byte per character, equal to the code point. |
| `PortDiscovery.FirstWhere` | src/serial_singleton.py:290 | The result is the index of the first element that satisfies the predicate, or None exactly when no element does. |
| `PortDiscovery.PortFromSerialNumber` | src/serial_singleton.py:273-291 | None exactly when no record has the serial number. Otherwise the result is the name of a record with it, and no earlier record has it. |
| `PortDiscovery.SerialNumberFromPort` | src/serial_singleton.py:294-312 | The serial number of the first record whose name is the port, and None when no record has that name. |
| `PortDiscovery.PortInfoOf` | src/serial_singleton.py:61-63 | The first record whose device is the port, and None exactly when there is none. An absent port matches nothing. |
| `PortDiscovery.FilterPorts` | src/serial_singleton.py:256-270 | The loop yields exactly `Filtered`: the devices, in input order, of the records that satisfy every constraint. A device is yielded iff some record with that device satisfies every constraint. |
| `PortDiscovery.FilteredAppend` | src/serial_singleton.py:257-270 | Filtering a concatenation is concatenating the filterings, so input order is kept. |
| `PortDiscovery.FilteredMembership` | src/serial_singleton.py:257-270 | A device is in the result iff some record with that device satisfies every constraint. |
| `PortDiscovery.FilteredUnconstrained` | src/serial_singleton.py:256-270 | With no constraints, every record's device is yielded, in order. |
| `PortDiscovery.MissingAttributeExcludes` | src/serial_singleton.py:259-268 | A record lacking a constrained attribute is not yielded. |
| `PortDiscovery.FailedSearchExcludes` | src/serial_singleton.py:262-268 | A string attribute whose pattern search fails is not yielded, even when it equals the expected string. |

## Left out

- The `threading.Lock` around the table (src/serial_singleton.py:22, 36, 69). The registry is modelled sequentially.
- The pyserial transport: the base constructor, `open`, `close`, `read` and `write`. Only the `isOpen` flag and the outcome of an open (`openSucceeds`) are kept.
- `write`, `read` and `query` (src/serial_singleton.py:121-223). They delegate to the transport. The struct-packing branch of `write` is unreachable, because `isinstance(data, tuple())` tests against an empty tuple of classes and so is always False. `write(data)` therefore always sends `to_bytes(data)`, which is modelled.
- The struct format language (`struct.calcsize`, `pack_into`, `unpack`) and `ctypes` buffers. That is library code.
- NumPy arrays and scalars in `to_bytes` (line 244-245). That is a foreign call.
- pyserial's `to_bytes` fallback (line 253). It is modelled only as the identity on already-encoded bytes. Tuples, bytearrays and memoryviews, and the TypeError for unsupported payloads, are not modelled.
- `bool` payloads, which Python treats as the ints 0 and 1, and strings holding lone surrogates, which `str.encode('utf-8')` rejects. Dafny characters are Unicode scalar values.
- Laziness of `filter_ports`. It is a generator despite its `list[str]` annotation: `comports()` runs only when iteration starts, and a caller may stop early. `FilterPorts` returns the fully consumed sequence.
- Port discovery (`list_ports.comports()`). It is replaced by a record-list parameter.
- The regular-expression engine. It is the uninterpreted parameter `matches`, and malformed patterns (`re.error`) are not modelled.
- Non-record attributes that `hasattr` would also find on a port record, such as its methods. Only the attributes listed in `PortInfo` exist.
- Garbage-collector timing of `__del__`. `Finalize` is an explicit `__del__()` call. The table itself holds a reference to each handle, so the interpreter would not finalize a handle that is still in the table on its own. `SerialNumberScenario` finalizes one only by such an explicit call.
- The keyword form `serial_number=...`. It also reaches pyserial's base constructor through `**kwargs`, and that is foreign code. The model covers only the positional form `Owner(port, serial_number)`.
- `__init__` runs only when `__new__` returns an instance of the requesting class. The owner is modelled as a class-name tag, so this `isinstance` gate is not modelled. A stored handle of a different class with the same `__name__` would be returned without `__init__`, while the model always runs `Initialize`. That matters only when retrying after a failed open.
- `setPort`, pyserial's deprecated alias of the setter (test line 39). The test calls it without an argument, which fails before any code of this project runs.
- Logging.
- docs/source/conf.py. It is Sphinx configuration with no logic.
