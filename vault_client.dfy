/** The vault page hands its `handleAddQuote` to the "Discover Quote" dialog as `onQuoteAdd`. */
module VaultClient {
  import opened Wrappers
  import opened Types
  import opened Vault
  import opened DiscoverDialog

  /**
   * "Add to Vault" with the dialog wired to the vault: the dialog's call to
   * `onQuoteAdd`, when it makes one, adds exactly that quote to the
   * collection, and without a call the collection is untouched.
   */
  method AddDiscoveredQuote(vault: QuoteVault, dialog: DiscoverQuoteDialog)
    requires vault.Valid() && dialog.Valid()
    modifies vault, dialog
    ensures vault.Valid() && dialog.Valid()
    ensures
      var draft := Submission(old(dialog.discoveredQuote), old(dialog.author), old(dialog.tags));
      && (draft.Some? ==> vault.quotes == Added(old(vault.quotes), draft.value.text, draft.value.author, draft.value.tags))
      && (draft.None? ==> vault.quotes == old(vault.quotes))
    ensures vault.toasts == old(vault.toasts)
    ensures
      var draft := Submission(old(dialog.discoveredQuote), old(dialog.author), old(dialog.tags));
      && (draft.Some? ==> dialog.toasts == old(dialog.toasts) + [Toast(false, AddedTitle, Some(AddedDescription))] && !dialog.isOpen)
      && (draft.None? ==> dialog.toasts == old(dialog.toasts) + [Toast(true, MissingTitle, Some(MissingDescription))] && dialog.isOpen == old(dialog.isOpen))
  {
    var onQuoteAdd := dialog.AddQuote();
    if onQuoteAdd.Some? {
      vault.AddQuote(onQuoteAdd.value.text, onQuoteAdd.value.author, onQuoteAdd.value.tags);
    }
  }
}
