# GitLab multiplatform kit: protocol stripping, verified in Dafny

This project models the shared (`commonMain`) core of the GitLab multiplatform
client kit: the URL-cleaning helper `String.removeProtocol` and the constant
`oauthLoginPath`.

`removeProtocol` drops a leading `http://` and then a leading `https://`. The
rest of the string, including any path, is kept: its documentation gives
`http://example.com/foo/bar` becoming `example.com/foo/bar`
(src/commonMain/kotlin/gitlabSDK.kt:5). It folds Kotlin's `removePrefix` over a
list of protocol prefixes. The default list is `"http://"` then `"https://"`. Each prefix gets
one turn, in list order, and is dropped only when it leads the string at that
turn. `oauthLoginPath` is the relative path of the password-grant token
endpoint, `oauth/token`.

Everything lives in one module, `GitlabSdk` (`gitlab_sdk.dfy`). The source is
pure: one `fold` expression with no mutable state. So the model is also pure:
`RemovePrefix` is Kotlin's `removePrefix`, and `RemoveProtocol` is the left fold
written as recursion over the prefix list. Its default argument is
`DefaultProtocols`, as in the Kotlin signature. Strings are `seq<char>`.

The model proves these facts:

- the result is always a trailing part of the input;
- the input is exactly the prefixes that were dropped, in list order, followed
  by the result;
- the fold splits over concatenated prefix lists;
- strings that no prefix leads are fixed points;
- a closed form for the default prefixes;
- the hostname cases that the repository's tests check.

## Model

| member | source | states |
|---|---|---|
| `GitlabSdk.RemovePrefix` | src/commonMain/kotlin/gitlabSDK.kt:10 | when the string starts with the prefix, prefix followed by the result gives back the string; otherwise the string is returned unchanged |
| `GitlabSdk.RemoveProtocol` | src/commonMain/kotlin/gitlabSDK.kt:9-10 | the fold's result is always a trailing part (suffix) of the receiver, so it is never longer than the receiver |
| `GitlabSdk.RemovedPrefixes` | src/commonMain/kotlin/gitlabSDK.kt:10 | the prefixes the fold actually drops form a subsequence of the prefix list: each one is used at most once, in list order |
| `GitlabSdk.RemoveProtocolDecomposes` | src/commonMain/kotlin/gitlabSDK.kt:9-10 | the input equals the concatenation of the dropped prefixes followed by the result: nothing else is removed, added or reordered |
| `GitlabSdk.EmptyProtocolsKeepInput` | src/commonMain/kotlin/gitlabSDK.kt:9-10 | with an empty prefix list the receiver is returned unchanged, because it is the fold's initial value |
| `GitlabSdk.NoLeadingProtocolKeepsInput` | src/commonMain/kotlin/gitlabSDK.kt:10 | a string that no prefix in the list starts is returned unchanged, for any prefix list |
| `GitlabSdk.RemoveProtocolAppend` | src/commonMain/kotlin/gitlabSDK.kt:10 | folding over `first + second` equals folding over `second`, starting from the result of folding over `first` (the left-fold law) |
| `GitlabSdk.DefaultRemoveProtocol` | src/commonMain/kotlin/gitlabSDK.kt:9-10 | with the default list, the result is one of four cases. A leading `http://` is dropped, then a `https://` that leads the rest. A string led by `https://` loses only that. Any other string is kept |
| `GitlabSdk.DefaultFixedPointIff` | src/commonMain/kotlin/gitlabSDK.kt:9-10 | with the default list, the result equals the input if and only if neither `http://` nor `https://` leads it |
| `GitlabSdk.StripsLeadingHttp` | src/commonMain/kotlin/gitlabSDK.kt:9-10 | `http://` followed by any rest (path included) that does not itself start with `https://` becomes exactly that rest |
| `GitlabSdk.StripsLeadingHttps` | src/commonMain/kotlin/gitlabSDK.kt:9-10 | `https://` followed by any rest becomes exactly that rest, path and trailing `/` or `//` included |
| `GitlabSdk.ProtocolsTriedInOrder` | src/commonMain/kotlin/gitlabSDK.kt:10 | each default prefix gets one turn, in order: `http://https://h` becomes `h`, but `https://http://h` becomes `http://h` |
| `GitlabSdk.NotIdempotent` | src/commonMain/kotlin/gitlabSDK.kt:10 | cleaning is not idempotent: `http://http://x` becomes `http://x` after one call and `x` after two |
| `GitlabSdk.CleanHostnameStripped` | src/commonTest/kotlin/CleanHostnameTest.kt:10-15 | the six test inputs led by `http://` or `https://` (each written as protocol + rest) become `www.example.com`, `www.example.com/` and `www.example.com//` |
| `GitlabSdk.CleanHostnameKept` | src/commonTest/kotlin/CleanHostnameTest.kt:16-21 | the six test inputs carrying `http://`, `https://` or a partial `http:/` only in the middle or at the end come back unchanged |
| `GitlabSdk.OauthLoginPathIsRelative` | src/commonMain/kotlin/gitlabSDK.kt:18 | the OAuth login path `oauth/token` is non-empty and relative (no leading `/`), and it carries no protocol, so cleaning leaves it as is |

## Left out

- `GitlabRestClient` and the project, branch, fork, membership and token operations that its integration tests exercise are not part of this model. Those tests drive a live GitLab server, and the client class is not among the sources, so there is no client-side logic to model. This includes the access-level and error-mapping rules those tests observe.
- The DTOs `GitlabUser` and `OAuthToken` and their field-copying converters are not modelled. They are plain data plus copies between types (`GitlabUserInProject`, `GitlabAccessLevel`, `GitlabActivityState`) that are not part of this model.
- HTTP transport, JSON (de)serialisation, Spring wiring and the Gradle build are I/O and foreign libraries, so they are left out.
- `OauthLoginPath` is a constant. The code that uses it is not among the sources, so how it is combined with the root URL is not part of this model.
- Kotlin strings are UTF-16 code-unit sequences, while the model uses Dafny `char`. The prefixes and all test inputs are ASCII, so nothing in the modelled behaviour depends on the difference.
